/**
 * The modification and label registry of AbstractRunConfig and its small configuration rules:
 * fixed, variable and known modifications, labels and the modifications they derive, the
 * per-residue mappings rebuilt after every change, the general and FASTA modification caps,
 * the fragment tolerances with the low-resolution flag, and two pure helpers (the number of
 * search threads and the reading of a boolean setting).
 */
module RunConfigs {
  import opened Wrappers
  import opened Text

  /** Residues are keyed by their sequence id; a modification or a label names its base residue by it. */
  type ResidueId = string

  /** AminoModification: a residue with its own sequence id, the residue it modifies and its mass. */
  datatype Modification = Modification(id: string, base: ResidueId, mass: real)

  /**
   * AminoLabel: a labelled residue with its own sequence id, the suffix its label gives to the
   * ids of derived modifications, the residue it labels and the mass difference of the label.
   */
  datatype Label = Label(id: string, labelId: string, base: ResidueId, weightDiff: real)

  /** An entry of the amino-acid registry (Java's AminoAcid objects there): a residue registered up front, a modification or a label. */
  datatype RegistryEntry = Registered(sequenceId: string) | Modified(m: Modification) | Labelled(l: Label)

  function SequenceId(aa: RegistryEntry): string {
    match aa
    case Registered(id) => id
    case Modified(m) => m.id
    case Labelled(l) => l.id
  }

  function ModBase(m: Modification): ResidueId {
    m.base
  }

  function LabelBase(l: Label): ResidueId {
    l.base
  }

  // ---- grouping by base residue (generateMappings, generateLabelMappings) ----

  /** The elements of `xs` whose key is `b`, in their order in `xs`. */
  function Select<T>(xs: seq<T>, key: T -> ResidueId, b: ResidueId): (r: seq<T>)
    ensures |r| <= |xs|
  {
    if xs == [] then []
    else Select(xs[..|xs| - 1], key, b) + (if key(xs[|xs| - 1]) == b then [xs[|xs| - 1]] else [])
  }

  /** The keys that occur in `xs`. */
  function Keys<T>(xs: seq<T>, key: T -> ResidueId): set<ResidueId> {
    set k | 0 <= k < |xs| :: key(xs[k])
  }

  /**
   * The mapping generateMappings builds: each element in turn appended to the list of its base,
   * which is created when missing.
   */
  function Grouping<T>(xs: seq<T>, key: T -> ResidueId): map<ResidueId, seq<T>> {
    if xs == [] then map[]
    else
      var g, x := Grouping(xs[..|xs| - 1], key), xs[|xs| - 1];
      g[key(x) := (if key(x) in g then g[key(x)] else []) + [x]]
  }

  /** HashMap.get: the list under `b`, or None for Java's null. */
  function Lookup<T>(m: map<ResidueId, seq<T>>, b: ResidueId): Option<seq<T>> {
    if b in m then Some(m[b]) else None
  }

  /** Selecting from a concatenation selects from each part, keeping the parts' order. */
  lemma {:induction false} SelectAppend<T>(a: seq<T>, c: seq<T>, key: T -> ResidueId, b: ResidueId)
    ensures Select(a + c, key, b) == Select(a, key, b) + Select(c, key, b)
    decreases |c|
  {
    if c == [] {
      assert a + c == a;
    } else {
      var init := c[..|c| - 1];
      SelectAppend(a, init, key, b);
      assert (a + c)[..|a + c| - 1] == a + init;
    }
  }

  /** An element is selected exactly when its key is the one asked for. */
  lemma {:induction false} SelectMembers<T>(xs: seq<T>, key: T -> ResidueId, b: ResidueId)
    ensures forall y | y in Select(xs, key, b) :: key(y) == b && y in xs
    ensures forall k | 0 <= k < |xs| && key(xs[k]) == b :: xs[k] in Select(xs, key, b)
  {
    if xs != [] {
      var init := xs[..|xs| - 1];
      SelectMembers(init, key, b);
      assert xs == init + [xs[|xs| - 1]];
      forall k | 0 <= k < |xs| - 1
        ensures xs[k] == init[k]
      {
      }
    }
  }

  /** Nothing is selected for a key that does not occur, and something for one that does. */
  lemma {:induction false} SelectEmpty<T>(xs: seq<T>, key: T -> ResidueId, b: ResidueId)
    ensures Select(xs, key, b) == [] <==> b !in Keys(xs, key)
  {
    SelectMembers(xs, key, b);
    if b in Keys(xs, key) {
      var k :| 0 <= k < |xs| && key(xs[k]) == b;
      assert xs[k] in Select(xs, key, b);
    }
    if Select(xs, key, b) != [] {
      var y := Select(xs, key, b)[0];
      assert y in Select(xs, key, b);
      var k :| 0 <= k < |xs| && xs[k] == y;
      assert key(xs[k]) in Keys(xs, key);
    }
  }

  /** Selecting from elements that all have key `b` keeps them all. */
  lemma {:induction false} SelectAll<T>(xs: seq<T>, key: T -> ResidueId, b: ResidueId)
    requires forall k | 0 <= k < |xs| :: key(xs[k]) == b
    ensures Select(xs, key, b) == xs
  {
    if xs != [] {
      SelectAll(xs[..|xs| - 1], key, b);
    }
  }

  /** Selecting another key from elements that all have key `b` keeps none. */
  lemma {:induction false} SelectNone<T>(xs: seq<T>, key: T -> ResidueId, b: ResidueId, c: ResidueId)
    requires b != c && forall k | 0 <= k < |xs| :: key(xs[k]) == b
    ensures Select(xs, key, c) == []
  {
    if xs != [] {
      SelectNone(xs[..|xs| - 1], key, b, c);
    }
  }

  /**
   * What generateMappings promises: a base is a key exactly when some element has it, its list
   * is never empty, holds exactly the elements with that base in their original order, and every
   * element is in the list of its own base.
   */
  lemma GroupingSpec<T>(xs: seq<T>, key: T -> ResidueId)
    ensures forall b :: b in Grouping(xs, key) <==> exists k :: 0 <= k < |xs| && key(xs[k]) == b
    ensures forall b | b in Grouping(xs, key) :: Grouping(xs, key)[b] != [] && Grouping(xs, key)[b] == Select(xs, key, b)
    ensures forall b, y | b in Grouping(xs, key) && y in Grouping(xs, key)[b] :: key(y) == b && y in xs
    ensures forall k | 0 <= k < |xs| :: key(xs[k]) in Grouping(xs, key) && xs[k] in Grouping(xs, key)[key(xs[k])]
  {
    forall b
      ensures b in Grouping(xs, key) <==> exists k :: 0 <= k < |xs| && key(xs[k]) == b
    {
      GroupingSelect(xs, key, b);
    }
    forall b | b in Grouping(xs, key)
      ensures Grouping(xs, key)[b] != [] && Grouping(xs, key)[b] == Select(xs, key, b)
      ensures forall y | y in Grouping(xs, key)[b] :: key(y) == b && y in xs
    {
      GroupingSelect(xs, key, b);
      SelectEmpty(xs, key, b);
      SelectMembers(xs, key, b);
    }
    forall k | 0 <= k < |xs|
      ensures key(xs[k]) in Grouping(xs, key) && xs[k] in Grouping(xs, key)[key(xs[k])]
    {
      assert key(xs[k]) in Keys(xs, key);
      GroupingSelect(xs, key, key(xs[k]));
      SelectMembers(xs, key, key(xs[k]));
    }
  }

  /** A lookup in the grouping: the list of the base's elements, or null when there is none. */
  lemma GroupingLookup<T>(xs: seq<T>, key: T -> ResidueId, b: ResidueId)
    ensures Lookup(Grouping(xs, key), b) == if Select(xs, key, b) == [] then None else Some(Select(xs, key, b))
  {
    GroupingSelect(xs, key, b);
    SelectEmpty(xs, key, b);
  }

  /** The keys of a sequence with one more element. */
  lemma KeysSnoc<T>(a: seq<T>, x: T, key: T -> ResidueId)
    ensures Keys(a + [x], key) == Keys(a, key) + {key(x)}
  {
    forall b | b in Keys(a + [x], key)
      ensures b in Keys(a, key) + {key(x)}
    {
      var k :| 0 <= k < |a + [x]| && key((a + [x])[k]) == b;
      if k < |a| {
        assert (a + [x])[k] == a[k];
      }
    }
    forall b | b in Keys(a, key)
      ensures b in Keys(a + [x], key)
    {
      var k :| 0 <= k < |a| && key(a[k]) == b;
      assert (a + [x])[k] == a[k];
    }
    assert key((a + [x])[|a|]) == key(x);
  }

  /** The grouping maps exactly the keys that occur, each to the selection of its elements. */
  lemma {:induction false} GroupingSelect<T>(xs: seq<T>, key: T -> ResidueId, b: ResidueId)
    ensures b in Grouping(xs, key) <==> b in Keys(xs, key)
    ensures b in Grouping(xs, key) ==> Grouping(xs, key)[b] == Select(xs, key, b)
  {
    if xs != [] {
      var init, x := xs[..|xs| - 1], xs[|xs| - 1];
      GroupingSelect(init, key, b);
      assert xs == init + [x];
      KeysSnoc(init, x, key);
      if b == key(x) && b !in Grouping(init, key) {
        SelectEmpty(init, key, b);
      }
    }
  }

  // ---- labels and the modifications they derive ----

  /** The modification label `l` derives from `m`: the label's suffix on m's id, its mass difference added. */
  function Relabel(m: Modification, l: Label): Modification {
    Modification(m.id + l.labelId, m.base, m.mass + l.weightDiff)
  }

  /** The copies of `m` that the labels `ls` derive, in the labels' order. */
  function LabelledCopies(m: Modification, ls: seq<Label>): seq<Modification> {
    seq(|ls|, k requires 0 <= k < |ls| => Relabel(m, ls[k]))
  }

  /** The copies label `l` derives from each of `ms`, in their order. */
  function RelabelAll(ms: seq<Modification>, l: Label): seq<Modification> {
    seq(|ms|, k requires 0 <= k < |ms| => Relabel(ms[k], l))
  }

  /**
   * Labels compound: after addLabel the list of the label's base is its old list followed by a
   * relabelled copy of each entry, earlier derived ones included, so it doubles in length; the
   * lists of the other bases are unchanged.
   */
  lemma LabelDoublesBase(xs: seq<Modification>, l: Label)
    ensures var cm := Select(xs, ModBase, l.base);
      Select(xs + RelabelAll(cm, l), ModBase, l.base) == cm + RelabelAll(cm, l)
    ensures forall c | c != l.base ::
      Select(xs + RelabelAll(Select(xs, ModBase, l.base), l), ModBase, c) == Select(xs, ModBase, c)
  {
    var cm := Select(xs, ModBase, l.base);
    var copies := RelabelAll(cm, l);
    SelectMembers(xs, ModBase, l.base);
    assert forall k | 0 <= k < |copies| :: ModBase(copies[k]) == l.base by {
      forall k | 0 <= k < |copies|
        ensures ModBase(copies[k]) == l.base
      {
        assert cm[k] in cm;
      }
    }
    SelectAppend(xs, copies, ModBase, l.base);
    SelectAll(copies, ModBase, l.base);
    forall c | c != l.base
      ensures Select(xs + copies, ModBase, c) == Select(xs, ModBase, c)
    {
      SelectAppend(xs, copies, ModBase, c);
      SelectNone(copies, ModBase, l.base, c);
      assert Select(xs, ModBase, c) + [] == Select(xs, ModBase, c);
    }
  }

  /** The residue registry after registering `aas` one by one: a later entry replaces an earlier one. */
  function Registry(aas: seq<RegistryEntry>): map<string, RegistryEntry> {
    if aas == [] then map[] else Registry(aas[..|aas| - 1])[SequenceId(aas[|aas| - 1]) := aas[|aas| - 1]]
  }

  /** The registry holds an id exactly when some entry has it, and then the last entry with it. */
  lemma {:induction false} RegistryLookup(aas: seq<RegistryEntry>, id: string)
    ensures id in Registry(aas) <==> exists k :: 0 <= k < |aas| && SequenceId(aas[k]) == id
    ensures id in Registry(aas) ==>
      exists k :: (0 <= k < |aas| && Registry(aas)[id] == aas[k] && SequenceId(aas[k]) == id
                   && forall j | k < j < |aas| :: SequenceId(aas[j]) != id)
  {
    if aas != [] {
      var init := aas[..|aas| - 1];
      RegistryLookup(init, id);
      var n := |aas| - 1;
      if SequenceId(aas[n]) != id && id in Registry(aas) {
        var k :| 0 <= k < |init| && Registry(init)[id] == init[k] && SequenceId(init[k]) == id
          && forall j | k < j < |init| :: SequenceId(init[j]) != id;
        assert aas[k] == init[k];
        assert forall j | k < j < |aas| :: SequenceId(aas[j]) != id by {
          forall j | k < j < |aas|
            ensures SequenceId(aas[j]) != id
          {
            if j < n {
              assert aas[j] == init[j];
            }
          }
        }
      }
      if id !in Registry(aas) {
        forall k | 0 <= k < |aas|
          ensures SequenceId(aas[k]) != id
        {
          if k < n {
            assert aas[k] == init[k];
          }
        }
      }
    }
  }

  // ---- the general and FASTA caps ----

  /**
   * A cap on modifications per peptide: the general value, its counterpart for peptides read
   * from FASTA, and whether the counterpart was set on its own.
   */
  datatype Cap = Cap(general: int, fasta: int, fastaSet: bool)

  /** The general setter: the FASTA counterpart follows it only while not set on its own. */
  function SetGeneral(c: Cap, v: int): Cap {
    Cap(v, if c.fastaSet then c.fasta else v, c.fastaSet)
  }

  /** The FASTA setter: sets the counterpart and detaches it from the general value. */
  function SetFasta(c: Cap, v: int): Cap {
    Cap(c.general, v, true)
  }

  /** While the FASTA counterpart is not set on its own it equals the general value. */
  ghost predicate Tracks(c: Cap) {
    !c.fastaSet ==> c.fasta == c.general
  }

  /** Both setters keep the counterpart tracking the general value until it is set on its own. */
  lemma SettersKeepTracking(c: Cap, v: int)
    requires Tracks(c)
    ensures Tracks(SetGeneral(c, v)) && Tracks(SetFasta(c, v))
    ensures !c.fastaSet ==> SetGeneral(c, v).fasta == v
  {
  }

  /** The general setter never changes whether the counterpart was set, nor does it touch one that was. */
  lemma GeneralKeepsSetFasta(c: Cap, v: int)
    ensures SetGeneral(c, v).general == v && SetGeneral(c, v).fastaSet == c.fastaSet
    ensures c.fastaSet ==> SetGeneral(c, v).fasta == c.fasta
  {
  }

  /** General settings applied one after another. */
  function SetGenerals(c: Cap, vs: seq<int>): Cap
    decreases |vs|
  {
    if vs == [] then c else SetGenerals(SetGeneral(c, vs[0]), vs[1..])
  }

  /** Once the FASTA counterpart is set, no number of general settings changes it. */
  lemma {:induction false} FastaSticks(c: Cap, v: int, vs: seq<int>)
    ensures SetGenerals(SetFasta(c, v), vs).fasta == v && SetGenerals(SetFasta(c, v), vs).fastaSet
    ensures vs != [] ==> SetGenerals(SetFasta(c, v), vs).general == vs[|vs| - 1]
    decreases |vs|
  {
    if vs != [] {
      var c' := SetGeneral(SetFasta(c, v), vs[0]);
      assert c' == SetFasta(Cap(vs[0], v, true), v);
      FastaSticks(Cap(vs[0], v, true), v, vs[1..]);
      if |vs| > 1 {
        assert vs[1..][|vs[1..]| - 1] == vs[|vs| - 1];
      }
    }
  }

  // ---- fragment tolerances ----

  /** ToleranceUnit: a tolerance value and its unit name. */
  datatype ToleranceUnit = ToleranceUnit(value: real, unit: string)

  /** A tolerance in daltons wider than 0.06 calls for low-resolution mode. */
  predicate Coarse(t: ToleranceUnit) {
    t.unit == "da" && t.value > 0.06
  }

  // ---- pure helpers ----

  /**
   * calculateSearchThreads with `processors` for Runtime.availableProcessors: a positive request
   * is taken as is, zero means one thread per processor and a negative request leaves that many
   * processors free; never fewer than one thread.
   */
  function CalculateSearchThreads(searchThreads: int, processors: int): (r: int)
    ensures r >= 1
    ensures searchThreads > 0 ==> r == searchThreads
    ensures searchThreads <= 0 ==> r >= processors + searchThreads && (r == 1 || r == processors + searchThreads)
  {
    if searchThreads == 0 then Max(processors, 1)
    else if searchThreads < 0 then Max(processors + searchThreads, 1)
    else searchThreads
  }

  function Max(a: int, b: int): int {
    if a >= b then a else b
  }

  /** The words getBoolean reads as true, compared case-sensitively. */
  predicate TrueWord(v: string) {
    v == "true" || v == "yes" || v == "t" || v == "y" || v == "1"
  }

  /** getBoolean: the default for a missing (null) value; otherwise whether the trimmed value is a true word. */
  function GetBoolean(value: Option<string>, defaultValue: bool): bool {
    if value.None? then defaultValue else TrueWord(Trim(value.value))
  }

  /** A missing value reads as the default. */
  lemma GetBooleanMissing(defaultValue: bool)
    ensures GetBoolean(None, defaultValue) == defaultValue
  {
  }

  /** A present value decides on its own: the default is ignored. */
  lemma GetBooleanIgnoresDefault(v: string)
    ensures GetBoolean(Some(v), true) == GetBoolean(Some(v), false)
  {
  }

  /** Leading and trailing blanks never change the answer. */
  lemma GetBooleanIgnoresBlanks(v: string, defaultValue: bool)
    ensures GetBoolean(Some(v), defaultValue) == GetBoolean(Some(Trim(v)), defaultValue)
  {
    TrimIdempotent(v);
  }

  /** The comparison is exact: "True" is not a true word and reads as false even when the default is true. */
  lemma GetBooleanIsCaseSensitive()
    ensures !GetBoolean(Some("True"), true)
  {
    var v := "True";
    assert !TrueWord(v);
    TrimOfTrimmed(v);
  }

  /** A padded " yes " reads as true even when the default is false. */
  lemma GetBooleanPaddedYes()
    ensures GetBoolean(Some(" yes "), false)
  {
    assert TrimStart(" yes ") == "yes ";
    assert TrimEnd("yes ") == "yes";
  }

  /**
   * AbstractRunConfig's registry of modifications and labels, its modification caps and its
   * fragment tolerances. The mappings are rebuilt from their lists after every change.
   */
  class AbstractRunConfig {
    var fixedMods: seq<Modification>
    var varMods: seq<Modification>
    var knownMods: seq<Modification>
    var labels: seq<Label>
    var mappedFixedMods: map<ResidueId, seq<Modification>>
    var mappedVarMods: map<ResidueId, seq<Modification>>
    var mappedKnownMods: map<ResidueId, seq<Modification>>
    var mappedLabel: map<ResidueId, seq<Label>>
    var aminoAcids: map<string, RegistryEntry>

    var maxModificationPerPeptide: int
    var maxModifiedPeptidesPerPeptide: int
    var maxModificationPerFASTAPeptideSet: bool
    var maxModificationPerFASTAPeptide: int
    var maxModifiedPeptidesPerFASTAPeptideSet: bool
    var maxModifiedPeptidesPerFASTAPeptide: int

    var fragmentTolerance: Option<ToleranceUnit>
    var fragmentToleranceCandidate: Option<ToleranceUnit>
    /** Java's Boolean m_LowResolution: None while unset (null). */
    var lowResolution: Option<bool>

    /** Every mapping is the grouping of its list by base residue. */
    ghost predicate Valid()
      reads this
    {
      && mappedFixedMods == Grouping(fixedMods, ModBase)
      && mappedVarMods == Grouping(varMods, ModBase)
      && mappedKnownMods == Grouping(knownMods, ModBase)
      && mappedLabel == Grouping(labels, LabelBase)
    }

    /** The cap on modifications per peptide, with its FASTA counterpart. */
    function ModificationCap(): Cap
      reads this
    {
      Cap(maxModificationPerPeptide, maxModificationPerFASTAPeptide, maxModificationPerFASTAPeptideSet)
    }

    /** The cap on modified variants per peptide, with its FASTA counterpart. */
    function ModifiedPeptidesCap(): Cap
      reads this
    {
      Cap(maxModifiedPeptidesPerPeptide, maxModifiedPeptidesPerFASTAPeptide, maxModifiedPeptidesPerFASTAPeptideSet)
    }

    /**
     * A new configuration: no modifications or labels, the `registered` residues in the
     * registry, caps of 3 modifications and 20 modified variants per peptide with FASTA
     * counterparts equal to them, no tolerances and the low-resolution flag unset.
     */
    constructor(registered: seq<RegistryEntry>)
      ensures Valid()
      ensures fixedMods == [] && varMods == [] && knownMods == [] && labels == []
      ensures aminoAcids == Registry(registered)
      ensures ModificationCap() == Cap(3, 3, false) && ModifiedPeptidesCap() == Cap(20, 20, false)
      ensures fragmentTolerance.None? && fragmentToleranceCandidate.None? && lowResolution.None?
    {
      fixedMods, varMods, knownMods, labels := [], [], [], [];
      mappedFixedMods, mappedVarMods, mappedKnownMods, mappedLabel := map[], map[], map[], map[];
      maxModificationPerPeptide := 3;
      maxModifiedPeptidesPerPeptide := 20;
      maxModificationPerFASTAPeptideSet := false;
      maxModificationPerFASTAPeptide := 3;
      maxModifiedPeptidesPerFASTAPeptideSet := false;
      maxModifiedPeptidesPerFASTAPeptide := 20;
      fragmentTolerance, fragmentToleranceCandidate, lowResolution := None, None, None;
      var r := RegisterAll(registered);
      aminoAcids := r;
    }

    /** The instance initialiser's loop: each registered residue put under its sequence id. */
    static method RegisterAll(registered: seq<RegistryEntry>) returns (r: map<string, RegistryEntry>)
      ensures r == Registry(registered)
    {
      r := map[];
      var k := 0;
      while k < |registered|
        invariant 0 <= k <= |registered|
        invariant r == Registry(registered[..k])
      {
        var aa := registered[k];
        assert registered[..k + 1][..k] == registered[..k];
        r := r[SequenceId(aa) := aa];
        k := k + 1;
      }
      assert registered[..k] == registered;
    }

    /** generateMappings: the modifications grouped by base residue. */
    static method GenerateMappings(modifications: seq<Modification>) returns (m: map<ResidueId, seq<Modification>>)
      ensures m == Grouping(modifications, ModBase)
    {
      m := GroupByBase(modifications, ModBase);
    }

    /** generateLabelMappings: the labels grouped by base residue. */
    static method GenerateLabelMappings(labelList: seq<Label>) returns (m: map<ResidueId, seq<Label>>)
      ensures m == Grouping(labelList, LabelBase)
    {
      m := GroupByBase(labelList, LabelBase);
    }

    /** The loop both mappings share: each element appended to its base's list, created when missing. */
    static method GroupByBase<T>(xs: seq<T>, key: T -> ResidueId) returns (m: map<ResidueId, seq<T>>)
      ensures m == Grouping(xs, key)
    {
      m := map[];
      assert xs[..0] == [];
      var k := 0;
      while k < |xs|
        invariant 0 <= k <= |xs|
        invariant m == Grouping(xs[..k], key)
      {
        var x := xs[k];
        var list := if key(x) in m then m[key(x)] else [];
        assert xs[..k + 1][..k] == xs[..k];
        m := m[key(x) := list + [x]];
        k := k + 1;
      }
      assert xs[..k] == xs;
    }

    /** getFixedModifications(aa): the fixed modifications of a residue, or null when it has none. */
    function GetFixedModifications(aa: ResidueId): (r: Option<seq<Modification>>)
      requires Valid()
      reads this
      ensures r.Some? <==> exists k :: 0 <= k < |fixedMods| && fixedMods[k].base == aa
      ensures r.Some? ==> r.value != [] && r.value == Select(fixedMods, ModBase, aa)
    {
      GroupingSpec(fixedMods, ModBase);
      GroupingLookup(fixedMods, ModBase, aa);
      Lookup(mappedFixedMods, aa)
    }

    /** getVariableModifications(aa): the variable modifications of a residue, or null when it has none. */
    function GetVariableModifications(aa: ResidueId): (r: Option<seq<Modification>>)
      requires Valid()
      reads this
      ensures r.Some? <==> exists k :: 0 <= k < |varMods| && varMods[k].base == aa
      ensures r.Some? ==> r.value != [] && r.value == Select(varMods, ModBase, aa)
    {
      GroupingSpec(varMods, ModBase);
      GroupingLookup(varMods, ModBase, aa);
      Lookup(mappedVarMods, aa)
    }

    /** getKnownModifications(aa): the known modifications of a residue, or null when it has none. */
    function GetKnownModifications(aa: ResidueId): (r: Option<seq<Modification>>)
      requires Valid()
      reads this
      ensures r.Some? <==> exists k :: 0 <= k < |knownMods| && knownMods[k].base == aa
      ensures r.Some? ==> r.value != [] && r.value == Select(knownMods, ModBase, aa)
    {
      GroupingSpec(knownMods, ModBase);
      GroupingLookup(knownMods, ModBase, aa);
      Lookup(mappedKnownMods, aa)
    }

    /** The loop of the add*Modification methods: one derived copy of `am` per label in `ml`. */
    static method AppendLabelledCopies(mods: seq<Modification>, am: Modification, ml: seq<Label>)
      returns (r: seq<Modification>)
      ensures r == mods + LabelledCopies(am, ml)
    {
      r := mods;
      var k := 0;
      while k < |ml|
        invariant 0 <= k <= |ml|
        invariant r == mods + LabelledCopies(am, ml[..k])
      {
        var al := ml[k];
        assert LabelledCopies(am, ml[..k + 1]) == LabelledCopies(am, ml[..k]) + [Relabel(am, al)];
        r := r + [Modification(am.id + al.labelId, am.base, am.mass + al.weightDiff)];
        k := k + 1;
      }
      assert ml[..k] == ml;
    }

    /** The loops of addLabel: one copy of each modification in `cm`, relabelled with `al`. */
    static method AppendRelabelled(mods: seq<Modification>, cm: seq<Modification>, al: Label)
      returns (r: seq<Modification>)
      ensures r == mods + RelabelAll(cm, al)
    {
      r := mods;
      var k := 0;
      while k < |cm|
        invariant 0 <= k <= |cm|
        invariant r == mods + RelabelAll(cm[..k], al)
      {
        var am := cm[k];
        assert RelabelAll(cm[..k + 1], al) == RelabelAll(cm[..k], al) + [Relabel(am, al)];
        r := r + [Modification(am.id + al.labelId, am.base, am.mass + al.weightDiff)];
        k := k + 1;
      }
      assert cm[..k] == cm;
    }

    /**
     * The list `mods`, whose mapping is `mapped`, followed by a copy relabelled with `al` of each
     * of its modifications on al's base, when there are any.
     */
    static method RelabelBase(mods: seq<Modification>, mapped: map<ResidueId, seq<Modification>>, al: Label)
      returns (r: seq<Modification>)
      requires mapped == Grouping(mods, ModBase)
      ensures r == mods + RelabelAll(Select(mods, ModBase, al.base), al)
    {
      var cm := Lookup(mapped, al.base);
      GroupingLookup(mods, ModBase, al.base);
      r := mods;
      if cm.Some? {
        r := AppendRelabelled(mods, cm.value, al);
      } else {
        assert RelabelAll([], al) == [];
      }
    }

    /** A new modification in a list, followed by the copies the labels on its base derive from it. */
    method WithLabels(mods: seq<Modification>, am: Modification) returns (r: seq<Modification>)
      requires Valid()
      ensures r == mods + [am] + LabelledCopies(am, Select(labels, LabelBase, am.base))
    {
      var ml := Lookup(mappedLabel, am.base);
      GroupingLookup(labels, LabelBase, am.base);
      r := mods + [am];
      if ml.Some? {
        r := AppendLabelledCopies(r, am, ml.value);
      }
    }

    /** addAminoAcid: registers a residue under its sequence id, replacing any entry there. */
    method AddAminoAcid(aa: RegistryEntry)
      modifies this`aminoAcids
      ensures aminoAcids == old(aminoAcids)[SequenceId(aa) := aa]
    {
      aminoAcids := aminoAcids[SequenceId(aa) := aa];
    }

    /**
     * addFixedModification: the list grows by the modification and the copies the labels on its
     * base derive from it; the fixed mapping is rebuilt and the modification registered.
     */
    method AddFixedModification(am: Modification)
      requires Valid()
      modifies this`fixedMods, this`mappedFixedMods, this`aminoAcids
      ensures Valid()
      ensures fixedMods == old(fixedMods) + [am] + LabelledCopies(am, Select(labels, LabelBase, am.base))
      ensures aminoAcids == old(aminoAcids)[am.id := Modified(am)]
    {
      fixedMods := WithLabels(fixedMods, am);
      mappedFixedMods := GenerateMappings(fixedMods);
      AddAminoAcid(Modified(am));
    }

    /** addVariableModification: as addFixedModification, on the variable modifications. */
    method AddVariableModification(am: Modification)
      requires Valid()
      modifies this`varMods, this`mappedVarMods, this`aminoAcids
      ensures Valid()
      ensures varMods == old(varMods) + [am] + LabelledCopies(am, Select(labels, LabelBase, am.base))
      ensures aminoAcids == old(aminoAcids)[am.id := Modified(am)]
    {
      varMods := WithLabels(varMods, am);
      mappedVarMods := GenerateMappings(varMods);
      AddAminoAcid(Modified(am));
    }

    /** addKnownModification: as addFixedModification, on the known modifications. */
    method AddKnownModification(am: Modification)
      requires Valid()
      modifies this`knownMods, this`mappedKnownMods, this`aminoAcids
      ensures Valid()
      ensures knownMods == old(knownMods) + [am] + LabelledCopies(am, Select(labels, LabelBase, am.base))
      ensures aminoAcids == old(aminoAcids)[am.id := Modified(am)]
    {
      knownMods := WithLabels(knownMods, am);
      mappedKnownMods := GenerateMappings(knownMods);
      AddAminoAcid(Modified(am));
    }

    /**
     * addLabel: the label is appended; every variable and every fixed modification on its base,
     * derived ones included, gets a relabelled copy at the end of its list; the mappings are
     * rebuilt and the label registered. Known modifications are untouched, and a label added
     * twice derives its copies twice.
     */
    method AddLabel(al: Label)
      requires Valid()
      modifies this`labels, this`varMods, this`fixedMods, this`mappedLabel, this`mappedFixedMods,
               this`mappedVarMods, this`aminoAcids
      ensures Valid()
      ensures labels == old(labels) + [al]
      ensures varMods == old(varMods) + RelabelAll(Select(old(varMods), ModBase, al.base), al)
      ensures fixedMods == old(fixedMods) + RelabelAll(Select(old(fixedMods), ModBase, al.base), al)
      ensures aminoAcids == old(aminoAcids)[al.id := Labelled(al)]
    {
      AppendLabel(al);
      var vars := RelabelBase(varMods, mappedVarMods, al);
      var fixed := RelabelBase(fixedMods, mappedFixedMods, al);
      Remap(vars, fixed);
      aminoAcids := aminoAcids[al.id := Labelled(al)];
    }

    /** addLabel's first step: the label appended and the label mapping rebuilt. */
    method AppendLabel(al: Label)
      modifies this`labels, this`mappedLabel
      ensures labels == old(labels) + [al] && mappedLabel == Grouping(labels, LabelBase)
    {
      labels := labels + [al];
      mappedLabel := GenerateLabelMappings(labels);
    }

    /** addLabel's last step: the new variable and fixed lists with their mappings rebuilt. */
    method Remap(vars: seq<Modification>, fixed: seq<Modification>)
      modifies this`varMods, this`fixedMods, this`mappedFixedMods, this`mappedVarMods
      ensures varMods == vars && fixedMods == fixed
      ensures mappedVarMods == Grouping(vars, ModBase) && mappedFixedMods == Grouping(fixed, ModBase)
    {
      varMods, fixedMods := vars, fixed;
      mappedFixedMods := GenerateMappings(fixedMods);
      mappedVarMods := GenerateMappings(varMods);
    }

    /**
     * setMaxModificationPerPeptide: Integer.parseInt of the trimmed text; the FASTA counterpart
     * follows unless set on its own. Text that does not parse changes nothing (false).
     */
    method SetMaxModificationPerPeptide(confArgs: string) returns (ok: bool)
      modifies this`maxModificationPerPeptide, this`maxModificationPerFASTAPeptide
      ensures ok == ParseInt(Trim(confArgs)).Some?
      ensures ModificationCap() ==
        if ok then SetGeneral(old(ModificationCap()), ParseInt(Trim(confArgs)).value) else old(ModificationCap())
    {
      var v := ParseInt(Trim(confArgs));
      if v.None? {
        return false;
      }
      maxModificationPerPeptide := v.value;
      if !maxModificationPerFASTAPeptideSet {
        maxModificationPerFASTAPeptide := maxModificationPerPeptide;
      }
      return true;
    }

    /** setMaxModifiedPeptidesPerPeptide: as setMaxModificationPerPeptide, on the other cap. */
    method SetMaxModifiedPeptidesPerPeptide(confArgs: string) returns (ok: bool)
      modifies this`maxModifiedPeptidesPerPeptide, this`maxModifiedPeptidesPerFASTAPeptide
      ensures ok == ParseInt(Trim(confArgs)).Some?
      ensures ModifiedPeptidesCap() ==
        if ok then SetGeneral(old(ModifiedPeptidesCap()), ParseInt(Trim(confArgs)).value) else old(ModifiedPeptidesCap())
    {
      var v := ParseInt(Trim(confArgs));
      if v.None? {
        return false;
      }
      maxModifiedPeptidesPerPeptide := v.value;
      if !maxModifiedPeptidesPerFASTAPeptideSet {
        maxModifiedPeptidesPerFASTAPeptide := maxModifiedPeptidesPerPeptide;
      }
      return true;
    }

    /** setMaxModificationPerFASTAPeptide: sets the FASTA counterpart and detaches it. */
    method SetMaxModificationPerFASTAPeptide(confArgs: string) returns (ok: bool)
      modifies this`maxModificationPerFASTAPeptide, this`maxModificationPerFASTAPeptideSet
      ensures ok == ParseInt(Trim(confArgs)).Some?
      ensures ModificationCap() ==
        if ok then SetFasta(old(ModificationCap()), ParseInt(Trim(confArgs)).value) else old(ModificationCap())
    {
      var v := ParseInt(Trim(confArgs));
      if v.None? {
        return false;
      }
      maxModificationPerFASTAPeptide := v.value;
      maxModificationPerFASTAPeptideSet := true;
      return true;
    }

    /** setMaxModifiedPeptidesPerFASTAPeptide: sets the FASTA counterpart and detaches it. */
    method SetMaxModifiedPeptidesPerFASTAPeptide(confArgs: string) returns (ok: bool)
      modifies this`maxModifiedPeptidesPerFASTAPeptide, this`maxModifiedPeptidesPerFASTAPeptideSet
      ensures ok == ParseInt(Trim(confArgs)).Some?
      ensures ModifiedPeptidesCap() ==
        if ok then SetFasta(old(ModifiedPeptidesCap()), ParseInt(Trim(confArgs)).value) else old(ModifiedPeptidesCap())
    {
      var v := ParseInt(Trim(confArgs));
      if v.None? {
        return false;
      }
      maxModifiedPeptidesPerFASTAPeptide := v.value;
      maxModifiedPeptidesPerFASTAPeptideSet := true;
      return true;
    }

    /** getFragmentToleranceCandidate: the candidate tolerance, falling back to the fragment tolerance. */
    function FragmentToleranceCandidate(): Option<ToleranceUnit>
      reads this
    {
      if fragmentToleranceCandidate.Some? then fragmentToleranceCandidate else fragmentTolerance
    }

    /**
     * setFragmentTolerance: stores the tolerance; while the low-resolution flag is unset it is
     * then set to true, for a coarse tolerance and for a fine one alike. A missing (null)
     * tolerance with the flag unset fails on reading its unit (false) after being stored.
     */
    method SetFragmentTolerance(tolerance: Option<ToleranceUnit>) returns (ok: bool)
      modifies this`fragmentTolerance, this`lowResolution
      ensures fragmentTolerance == tolerance
      ensures ok == (old(lowResolution).Some? || tolerance.Some?)
      ensures lowResolution == if old(lowResolution).None? && ok then Some(true) else old(lowResolution)
    {
      fragmentTolerance := tolerance;
      if lowResolution.None? {
        if fragmentTolerance.None? {
          return false;
        }
        if Coarse(fragmentTolerance.value) {
          lowResolution := Some(true);
        } else {
          lowResolution := Some(true);
        }
      }
      return true;
    }

    /**
     * setFragmentToleranceCandidate: stores the candidate; low-resolution mode is then on exactly
     * when the effective candidate is coarse. With neither tolerance present the read fails
     * (false) after the candidate is stored, and the flag is unchanged.
     */
    method SetFragmentToleranceCandidate(candidate: Option<ToleranceUnit>) returns (ok: bool)
      modifies this`fragmentToleranceCandidate, this`lowResolution
      ensures fragmentToleranceCandidate == candidate
      ensures ok == (candidate.Some? || fragmentTolerance.Some?)
      ensures ok ==> lowResolution == Some(Coarse(if candidate.Some? then candidate.value else fragmentTolerance.value))
      ensures !ok ==> lowResolution == old(lowResolution)
    {
      fragmentToleranceCandidate := candidate;
      var t := FragmentToleranceCandidate();
      if t.None? {
        return false;
      }
      if Coarse(t.value) {
        lowResolution := Some(true);
      } else {
        lowResolution := Some(false);
      }
      return true;
    }

    /** isLowResolution: false while the flag is unset, otherwise its value. */
    function IsLowResolution(): (r: bool)
      reads this
      ensures r <==> lowResolution == Some(true)
    {
      if lowResolution.None? then false else lowResolution.value
    }
  }
}
