/**
 * What SequenceList.addFasta(BufferedReader, decoy) makes of a FASTA text, stated record by
 * record, and what SequenceList.addFastaList makes of each line of a "list of FASTA files".
 */
module Fasta {
  import opened Wrappers
  import opened Text
  import opened Sequences

  // ---- lines and records ----

  /** A line after trimming, if anything is left of it. */
  function Meaningful(line: string): (r: seq<string>)
    ensures |r| <= 1 && forall k | 0 <= k < |r| :: r[k] != [] && r[k] == Trim(line)
  {
    var t := Trim(line);
    if t == [] then [] else [t]
  }

  /** The trimmed non-empty lines of a text, in order: the only lines the parser acts on. */
  function Content(lines: seq<string>): (c: seq<string>)
    ensures forall k | 0 <= k < |c| :: c[k] != []
  {
    if lines == [] then [] else Content(lines[..|lines| - 1]) + Meaningful(lines[|lines| - 1])
  }

  lemma {:induction false} ContentAppend(a: seq<string>, b: seq<string>)
    ensures Content(a + b) == Content(a) + Content(b)
  {
    if b != [] {
      assert (a + b)[..|a + b| - 1] == a + b[..|b| - 1];
      ContentAppend(a, b[..|b| - 1]);
    } else {
      assert a + b == a;
    }
  }

  /** A line that opens a new record. */
  predicate IsHeader(l: string) {
    l != [] && l[0] == '>'
  }

  /** A record: the header line without its '>' and the residue lines that follow it, joined. */
  datatype FastaRecord = FastaRecord(header: string, residues: string)

  /** The strings of `ls` joined without separator. */
  function Concat(ls: seq<string>): string {
    if ls == [] then [] else Concat(ls[..|ls| - 1]) + ls[|ls| - 1]
  }

  /**
   * The records of a content whose first line is a header: each header line opens a record,
   * every other line is appended to the residues of the record open at that point.
   */
  function Records(c: seq<string>): (r: seq<FastaRecord>)
    requires c != [] ==> IsHeader(c[0])
    ensures c != [] ==> r != []
  {
    if c == [] then []
    else
      var init := Records(c[..|c| - 1]);
      var l := c[|c| - 1];
      if IsHeader(l) then init + [FastaRecord(l[1..], [])]
      else init[..|init| - 1] + [init[|init| - 1].(residues := init[|init| - 1].residues + l)]
  }

  /** A header line followed by residue lines is one record holding all of those residues. */
  lemma {:induction false} RecordOfBlock(h: string, body: seq<string>)
    requires IsHeader(h)
    requires forall k | 0 <= k < |body| :: !IsHeader(body[k])
    ensures Records([h] + body) == [FastaRecord(h[1..], Concat(body))]
  {
    var c := [h] + body;
    if body == [] {
      assert c[..|c| - 1] == [];
    } else {
      var body' := body[..|body| - 1];
      assert c[..|c| - 1] == [h] + body';
      RecordOfBlock(h, body');
      var init := Records([h] + body');
      assert init == [FastaRecord(h[1..], Concat(body'))];
      assert !IsHeader(c[|c| - 1]);
      assert Records(c) == init[..0] + [init[0].(residues := init[0].residues + body[|body| - 1])];
    }
  }

  /** Content that continues with a header line adds its own records after the earlier ones. */
  lemma {:induction false} RecordsAppend(a: seq<string>, b: seq<string>)
    requires a != [] ==> IsHeader(a[0])
    requires b != [] && IsHeader(b[0])
    ensures Records(a + b) == Records(a) + Records(b)
  {
    if |b| == 1 {
      RecordsOpen(a, b[0]);
      RecordsOpen([], b[0]);
      assert [] + b == b;
    } else {
      var b' := b[..|b| - 1];
      var l := b[|b| - 1];
      assert a + b == (a + b') + [l];
      assert b == b' + [l];
      RecordsAppend(a, b');
      if IsHeader(l) {
        RecordsAppendOpen(a, b', l);
      } else {
        RecordsAppendExtend(a, b', l);
      }
    }
  }

  lemma RecordsAppendOpen(a: seq<string>, b: seq<string>, l: string)
    requires a != [] ==> IsHeader(a[0])
    requires b != [] && IsHeader(b[0]) && IsHeader(l)
    requires Records(a + b) == Records(a) + Records(b)
    ensures Records((a + b) + [l]) == Records(a) + Records(b + [l])
  {
    RecordsOpen(a + b, l);
    RecordsOpen(b, l);
    AppendAssoc(Records(a), Records(b), [FastaRecord(l[1..], [])]);
  }

  lemma RecordsAppendExtend(a: seq<string>, b: seq<string>, l: string)
    requires a != [] ==> IsHeader(a[0])
    requires b != [] && IsHeader(b[0]) && !IsHeader(l)
    requires Records(a + b) == Records(a) + Records(b)
    ensures Records((a + b) + [l]) == Records(a) + Records(b + [l])
  {
    RecordsExtend(a + b, l);
    RecordsExtend(b, l);
    ReplaceLastAppend(Records(a), Records(b), l);
  }

  /** A header line opens a new record. */
  lemma RecordsOpen(c: seq<string>, l: string)
    requires c != [] ==> IsHeader(c[0])
    requires IsHeader(l)
    ensures Records(c + [l]) == Records(c) + [FastaRecord(l[1..], [])]
  {
    assert (c + [l])[..|c|] == c;
  }

  /** Any other line extends the open record. */
  lemma RecordsExtend(c: seq<string>, l: string)
    requires c != [] && IsHeader(c[0])
    requires !IsHeader(l)
    ensures var init := Records(c);
      Records(c + [l]) == init[..|init| - 1] + [init[|init| - 1].(residues := init[|init| - 1].residues + l)]
  {
    assert (c + [l])[..|c|] == c;
  }

  /** Extending the last record of `ra + rb`, with `rb` non-empty, extends the last of `rb`. */
  lemma ReplaceLastAppend(ra: seq<FastaRecord>, rb: seq<FastaRecord>, l: string)
    requires rb != []
    ensures var r := ra + rb;
      r[..|r| - 1] + [r[|r| - 1].(residues := r[|r| - 1].residues + l)]
      == ra + (rb[..|rb| - 1] + [rb[|rb| - 1].(residues := rb[|rb| - 1].residues + l)])
  {
    assert (ra + rb)[..|ra + rb| - 1] == ra + rb[..|rb| - 1];
  }

  /** The index of the first record without residues, or the number of records if there is none. */
  function FirstEmpty(recs: seq<FastaRecord>): (k: nat)
    ensures k <= |recs|
    ensures k < |recs| ==> recs[k].residues == []
    ensures forall j | 0 <= j < k :: recs[j].residues != []
  {
    if recs == [] then 0
    else if recs[0].residues == [] then 0
    else 1 + FirstEmpty(recs[1..])
  }

  // ---- the sequences a record yields ----

  /** Everything the FASTA parser depends on besides the text: the decoy policy, the record
   *  filter with FastaFilter.getSequences, and Sequence.reverse and Sequence.shuffle. */
  datatype FastaContext = FastaContext(
    decoy: DecoyGeneration,
    filter: FastaFilter,
    getSequences: (FastaFilter, Sequence) -> seq<Sequence>,
    reverse: Sequence -> Sequence,
    shuffle: Sequence -> Sequence)

  /** One trailing '*' stop marker removed. */
  function StripStop(s: string): (r: string)
    ensures s != [] && s[|s| - 1] == '*' ==> r + "*" == s
    ensures !(s != [] && s[|s| - 1] == '*') ==> r == s
  {
    if s != [] && s[|s| - 1] == '*' then s[..|s| - 1] else s
  }

  /** The sequence built from a record; it is a decoy exactly under the IsDecoy policy. */
  function NewSequence(r: FastaRecord, decoy: DecoyGeneration): Sequence {
    Sequence(StripStop(r.residues), r.header, decoy == IsDecoy, [])
  }

  /** The decoy the GENERATE_* policies add right after a sequence. */
  function Companion(a: Sequence, ctx: FastaContext): seq<Sequence> {
    match ctx.decoy
    case GenerateReversedDecoy => [ctx.reverse(a)]
    case GenerateRandomizedDecoy => [ctx.shuffle(a)]
    case _ => []
  }

  /** Each sequence of `ss` followed by its companion decoy, if the policy makes one. */
  function WithCompanions(ss: seq<Sequence>, ctx: FastaContext): seq<Sequence> {
    if ss == [] then [] else WithCompanions(ss[..|ss| - 1], ctx) + [ss[|ss| - 1]] + Companion(ss[|ss| - 1], ctx)
  }

  lemma {:induction false} WithCompanionsLength(ss: seq<Sequence>, ctx: FastaContext)
    ensures |WithCompanions(ss, ctx)| == (if ctx.decoy in {GenerateReversedDecoy, GenerateRandomizedDecoy} then 2 else 1) * |ss|
  {
    if ss != [] {
      WithCompanionsLength(ss[..|ss| - 1], ctx);
    }
  }

  /** A record closed by the next header: what the filter makes of its sequence, with companions. */
  function RecordSequences(r: FastaRecord, ctx: FastaContext): seq<Sequence> {
    WithCompanions(ctx.getSequences(ctx.filter, NewSequence(r, ctx.decoy)), ctx)
  }

  /** `x` repeated `n` times. */
  function Repeat(x: Sequence, n: nat): (r: seq<Sequence>)
    ensures |r| == n && forall k | 0 <= k < n :: r[k] == x
  {
    seq(n, _ => x)
  }

  /**
   * The record at the end of the text: the unfiltered sequence, with its companion, once for
   * every sequence the filter makes of it.
   */
  function LastRecordSequences(r: FastaRecord, ctx: FastaContext): seq<Sequence> {
    var s := NewSequence(r, ctx.decoy);
    WithCompanions(Repeat(s, |ctx.getSequences(ctx.filter, s)|), ctx)
  }

  /** The sequences of the records of `recs`, each closed by a following header. */
  function AllRecordSequences(recs: seq<FastaRecord>, ctx: FastaContext): seq<Sequence> {
    if recs == [] then [] else AllRecordSequences(recs[..|recs| - 1], ctx) + RecordSequences(recs[|recs| - 1], ctx)
  }

  /** Why the parser stops early: a record without residues before another header
   *  (StringIndexOutOfBoundsException), or residues before the first header (NullPointerException). */
  datatype FastaError = EmptyRecord | ResiduesBeforeHeader

  /** The sequences appended, in order, and the error that ended the parse, if any. */
  datatype FastaOutcome = FastaOutcome(added: seq<Sequence>, error: Option<FastaError>)

  /** The outcome of SequenceList.addFasta on the lines of a FASTA text. */
  function ParseFasta(lines: seq<string>, ctx: FastaContext): FastaOutcome {
    var c := Content(lines);
    if c != [] && !IsHeader(c[0]) then FastaOutcome([], Some(ResiduesBeforeHeader))
    else ParseRecords(Records(c), ctx)
  }

  /**
   * The outcome for the records of a text that starts with a header: parsing stops at the first
   * record without residues that another header follows; the last record is emitted only when
   * it has residues.
   */
  function ParseRecords(recs: seq<FastaRecord>, ctx: FastaContext): FastaOutcome {
    var k := FirstEmpty(recs);
    if k + 1 < |recs| then FastaOutcome(AllRecordSequences(recs[..k], ctx), Some(EmptyRecord))
    else if k + 1 == |recs| then FastaOutcome(AllRecordSequences(recs[..k], ctx), None)
    else if recs == [] then FastaOutcome([], None)
    else FastaOutcome(AllRecordSequences(recs[..|recs| - 1], ctx) + LastRecordSequences(recs[|recs| - 1], ctx), None)
  }

  // ---- the parser's state after a prefix of the text ----

  /**
   * After the content lines `c`: `open` is the residue buffer of the record being read (None
   * before the first header), `header` its header, and `added` everything emitted so far,
   * namely the sequences of every record already closed by a later header.
   */
  ghost predicate ParsedPrefix(c: seq<string>, open: Option<string>, header: string, added: seq<Sequence>, ctx: FastaContext) {
    && (c != [] ==> IsHeader(c[0]))
    && (c == [] <==> open.None?)
    && (c == [] ==> added == [])
    && (c != [] ==>
          var recs := Records(c);
          && open == Some(recs[|recs| - 1].residues)
          && header == recs[|recs| - 1].header
          && (forall j | 0 <= j < |recs| - 1 :: recs[j].residues != [])
          && added == AllRecordSequences(recs[..|recs| - 1], ctx))
  }

  lemma ContentSnoc(lines: seq<string>, i: nat)
    requires i < |lines|
    ensures Content(lines[..i + 1]) == Content(lines[..i]) + Meaningful(lines[i])
  {
    assert lines[..i + 1][..i] == lines[..i];
  }

  /** The first header opens the first record. */
  lemma ParsedOpenFirst(t: string, ctx: FastaContext)
    requires IsHeader(t)
    ensures ParsedPrefix([t], Some([]), t[1..], [], ctx)
  {
    RecordsOpen([], t);
    assert [] + [t] == [t];
  }

  /** A later header closes the open, non-empty record, emitting its sequences, and opens the next. */
  lemma ParsedOpenNext(c: seq<string>, b: string, h: string, added: seq<Sequence>, t: string, ctx: FastaContext)
    requires ParsedPrefix(c, Some(b), h, added, ctx) && b != []
    requires IsHeader(t)
    ensures ParsedPrefix(c + [t], Some([]), t[1..], added + RecordSequences(FastaRecord(h, b), ctx), ctx)
  {
    RecordsOpen(c, t);
    var recs := Records(c);
    DropLastSnoc(recs, FastaRecord(t[1..], []));
    SplitLast(recs);
  }

  /** A residue line after a header extends the open record. */
  lemma ParsedExtend(c: seq<string>, b: string, h: string, added: seq<Sequence>, t: string, ctx: FastaContext)
    requires ParsedPrefix(c, Some(b), h, added, ctx)
    requires !IsHeader(t)
    ensures ParsedPrefix(c + [t], Some(b + t), h, added, ctx)
  {
    RecordsExtend(c, t);
    var recs := Records(c);
    var recs' := Records(c + [t]);
    assert recs'[..|recs'| - 1] == recs[..|recs| - 1];
  }

  /** The content of the whole text is the content so far followed by that of the rest. */
  lemma ContentSplit(lines: seq<string>, i: nat)
    requires i < |lines|
    ensures Content(lines) == Content(lines[..i]) + (Meaningful(lines[i]) + Content(lines[i + 1..]))
  {
    assert lines == lines[..i + 1] + lines[i + 1..];
    ContentAppend(lines[..i + 1], lines[i + 1..]);
    ContentSnoc(lines, i);
    AppendAssoc(Content(lines[..i]), Meaningful(lines[i]), Content(lines[i + 1..]));
  }

  lemma DropLastSnoc<T>(s: seq<T>, x: T)
    ensures (s + [x])[..|s|] == s
  {
  }

  lemma SplitLast<T>(s: seq<T>)
    requires s != []
    ensures s == s[..|s| - 1] + [s[|s| - 1]]
  {
  }

  lemma AppendAssoc<T>(a: seq<T>, b: seq<T>, c: seq<T>)
    ensures (a + b) + c == a + (b + c)
  {
  }

  /** A header while the open record has no residues ends the parse with what was emitted. */
  lemma ParsedEmptyRecord(lines: seq<string>, i: nat, h: string, added: seq<Sequence>, ctx: FastaContext)
    requires i < |lines|
    requires ParsedPrefix(Content(lines[..i]), Some([]), h, added, ctx)
    requires IsHeader(Trim(lines[i]))
    ensures ParseFasta(lines, ctx) == FastaOutcome(added, Some(EmptyRecord))
  {
    var t := Trim(lines[i]);
    var c, tail := Content(lines[..i]), Content(lines[i + 1..]);
    assert Meaningful(lines[i]) == [t];
    ContentSplit(lines, i);
    EmptyRecordContent(c, [t] + tail, h, added, ctx);
  }

  lemma EmptyRecordContent(c: seq<string>, rest: seq<string>, h: string, added: seq<Sequence>, ctx: FastaContext)
    requires ParsedPrefix(c, Some([]), h, added, ctx)
    requires rest != [] && IsHeader(rest[0])
    ensures (c + rest)[0] == c[0] && IsHeader(c[0])
    ensures ParseRecords(Records(c + rest), ctx) == FastaOutcome(added, Some(EmptyRecord))
  {
    RecordsAppend(c, rest);
    EmptyRecordOutcome(Records(c), Records(rest), ctx);
  }

  lemma EmptyRecordOutcome(recs: seq<FastaRecord>, more: seq<FastaRecord>, ctx: FastaContext)
    requires recs != [] && recs[|recs| - 1].residues == []
    requires forall j | 0 <= j < |recs| - 1 :: recs[j].residues != []
    requires more != []
    ensures ParseRecords(recs + more, ctx) == FastaOutcome(AllRecordSequences(recs[..|recs| - 1], ctx), Some(EmptyRecord))
  {
    var all := recs + more;
    FirstEmptyAt(all, |recs| - 1);
    assert all[..|recs| - 1] == recs[..|recs| - 1];
  }

  /** The first record without residues, when every earlier one has some. */
  lemma FirstEmptyAt(recs: seq<FastaRecord>, k: nat)
    requires k < |recs| && recs[k].residues == []
    requires forall j | 0 <= j < k :: recs[j].residues != []
    ensures FirstEmpty(recs) == k
  {
  }

  /** Residues before any header end the parse with nothing emitted. */
  lemma ParsedResiduesFirst(lines: seq<string>, i: nat, ctx: FastaContext)
    requires i < |lines|
    requires Content(lines[..i]) == []
    requires Trim(lines[i]) != [] && !IsHeader(Trim(lines[i]))
    ensures ParseFasta(lines, ctx) == FastaOutcome([], Some(ResiduesBeforeHeader))
  {
    ContentSplit(lines, i);
  }

  /** At the end of the text the open record, if it has residues, is emitted as the last one. */
  lemma ParsedEnd(lines: seq<string>, open: Option<string>, h: string, added: seq<Sequence>, ctx: FastaContext)
    requires ParsedPrefix(Content(lines), open, h, added, ctx)
    ensures ParseFasta(lines, ctx) == FastaOutcome(
      added + (if open.Some? && open.value != [] then LastRecordSequences(FastaRecord(h, open.value), ctx) else []),
      None)
  {
    var c := Content(lines);
    if c != [] {
      var recs := Records(c);
      var n := |recs| - 1;
      if open.value == [] {
        FirstEmptyAt(recs, n);
      } else {
        assert recs[n] == FastaRecord(h, open.value);
      }
    }
  }

  // ---- the list of FASTA files ----

  /** A file the list names and the decoy policy it is read with. */
  datatype ListEntry = ListEntry(path: string, decoy: DecoyGeneration)

  /** What a line of the list asks for: nothing, a file to load, or a path that cannot be found. */
  datatype ListLine = Skip | Load(entry: ListEntry) | Missing(path: string)

  /** File.exists and File.separator. */
  datatype FileSystem = FileSystem(fileExists: string -> bool, separator: string)

  /** The policy and path a (trimmed) list line names: a case-insensitive "decoy:" or "target:"
   *  prefix selects the policy and six characters are cut off before trimming again. */
  function PolicyAndPath(t: string): (r: (DecoyGeneration, string))
    ensures r.0 == IsDecoy <==> StartsIgnoringCase(t, "decoy:")
  {
    LowerPrefixIgnoresCase(t, "decoy:");
    if "decoy:" <= ToLower(t) then (IsDecoy, Trim(t[6..]))
    else if "target:" <= ToLower(t) then (IsTarget, Trim(t[6..]))
    else (IsTarget, t)
  }

  /**
   * The three readings of a list line: a `decoy:` prefix in any case selects ISDECOY, otherwise a
   * `target:` prefix selects ISTARGET, and in both cases six characters are cut off before
   * trimming again; a line with neither prefix is read with ISTARGET and names itself.
   */
  lemma PolicyAndPathCases(t: string)
    ensures StartsIgnoringCase(t, "decoy:") ==> PolicyAndPath(t) == (IsDecoy, Trim(t[6..]))
    ensures !StartsIgnoringCase(t, "decoy:") && StartsIgnoringCase(t, "target:") ==>
      PolicyAndPath(t) == (IsTarget, Trim(t[6..]))
    ensures !StartsIgnoringCase(t, "decoy:") && !StartsIgnoringCase(t, "target:") ==>
      PolicyAndPath(t) == (IsTarget, t)
  {
    LowerPrefixIgnoresCase(t, "decoy:");
    LowerPrefixIgnoresCase(t, "target:");
  }

  /**
   * One line of a list file whose own directory is `parent` (None: no parent directory). A path
   * that does not exist is looked up once more under the parent directory; opening a file that
   * is not there either raises FileNotFoundException, as it does without a parent.
   */
  function ListLineMeaning(line: string, parent: Option<string>, fs: FileSystem): (r: ListLine)
    ensures r.Skip? <==> Trim(line) == [] || Trim(line)[0] == '#'
    ensures r.Load? ==> (r.entry.decoy == IsDecoy <==> StartsIgnoringCase(Trim(line), "decoy:"))
    ensures r.Load? ==> fs.fileExists(r.entry.path)
    ensures r.Missing? ==> !fs.fileExists(r.path)
  {
    var t := Trim(line);
    if t == [] || "#" <= t then Skip
    else
      var (decoy, path) := PolicyAndPath(t);
      if fs.fileExists(path) then Load(ListEntry(path, decoy))
      else if parent.None? then Missing(path)
      else
        var resolved := parent.value + fs.separator + path;
        if fs.fileExists(resolved) then Load(ListEntry(resolved, decoy)) else Missing(resolved)
  }

  /**
   * The lookup order of a line that names a path: the path itself when it exists; otherwise it
   * is missing when the list has no parent directory, and else both the load and the missing
   * report name the path under the parent directory.
   */
  lemma ListLineLookup(line: string, parent: Option<string>, fs: FileSystem)
    requires Trim(line) != [] && Trim(line)[0] != '#'
    ensures var (decoy, path) := PolicyAndPath(Trim(line));
      var r := ListLineMeaning(line, parent, fs);
      var resolved := if parent.Some? then parent.value + fs.separator + path else path;
      && (fs.fileExists(path) ==> r == Load(ListEntry(path, decoy)))
      && (!fs.fileExists(path) && parent.None? ==> r == Missing(path))
      && (!fs.fileExists(path) && parent.Some? ==> r == Load(ListEntry(resolved, decoy)) || r == Missing(resolved))
  {
  }

  /**
   * With the "target:" prefix six characters are cut off, so the path that is looked up
   * keeps the prefix's ':' as its first character.
   */
  lemma TargetPrefixKeepsColon(t: string)
    requires "target:" <= ToLower(t)
    ensures PolicyAndPath(t) == (IsTarget, Trim(t[6..]))
    ensures Trim(t[6..]) != [] && Trim(t[6..])[0] == ':'
  {
    assert ToLower(t)[0] == 't' && ToLower(t)[6] == ':';
    assert t[6] == ':';
    assert t[6..] == [':'] + t[7..];
    TrimKeepsVisibleHead(':', t[7..]);
  }

  /** What each line of a list asks for, line by line. */
  function Meanings(lines: seq<string>, parent: Option<string>, fs: FileSystem): seq<ListLine> {
    seq(|lines|, k requires 0 <= k < |lines| => ListLineMeaning(lines[k], parent, fs))
  }

  /** The files a list loads, in order, up to the first path that cannot be found. */
  datatype ListOutcome = ListOutcome(entries: seq<ListEntry>, missing: Option<string>)

  function ListEntries(ms: seq<ListLine>): (r: ListOutcome)
    ensures |r.entries| <= |ms|
    ensures r.missing.None? <==> forall k | 0 <= k < |ms| :: !ms[k].Missing?
  {
    if ms == [] then ListOutcome([], None)
    else
      match ms[0]
      case Skip => ListEntries(ms[1..])
      case Load(e) => var rest := ListEntries(ms[1..]); rest.(entries := [e] + rest.entries)
      case Missing(p) => ListOutcome([], Some(p))
  }

  /** A list without comments, blank lines or missing files loads one file per line, in order. */
  lemma {:induction false} ListEntriesAllLoaded(ms: seq<ListLine>)
    requires forall k | 0 <= k < |ms| :: ms[k].Load?
    ensures var r := ListEntries(ms);
      r.missing.None? && |r.entries| == |ms| && forall k | 0 <= k < |ms| :: r.entries[k] == ms[k].entry
  {
    if ms != [] {
      ListEntriesAllLoaded(ms[1..]);
      assert forall k | 1 <= k < |ms| :: ms[1..][k - 1] == ms[k];
    }
  }

  // ---- loading the files of a list ----

  /** How loading a list ends: after its last line, at a path that cannot be found, or at a
   *  FASTA file whose parse raised an error. */
  datatype ListStop = Done | MissingFile(path: string) | BadFasta(path: string, error: FastaError)

  /** The sequences appended, in order, whether any loaded file asked for decoys, and how it ended. */
  datatype ListResult = ListResult(added: seq<Sequence>, decoys: bool, stop: ListStop)

  /** What reading one named file with a given policy yields. */
  type FileLoader = (string, DecoyGeneration) -> FastaOutcome

  /** The loader that parses the lines `contents` gives for a path, in the context `base` with
   *  the policy replaced. */
  function Loader(contents: string -> seq<string>, base: FastaContext): FileLoader {
    (p: string, d: DecoyGeneration) => ParseFasta(contents(p), base.(decoy := d))
  }

  /**
   * SequenceList.addFastaList on what the lines of a list ask for: each file named is read with
   * `load` under the policy its line selects; a missing path or a file that fails to parse ends
   * the load.
   */
  function ListLoad(ms: seq<ListLine>, load: FileLoader): ListResult
  {
    if ms == [] then ListResult([], false, Done)
    else
      var st := LineStep(ms[0], load);
      if st.stop.Some? then ListResult(st.added, st.decoys, st.stop.value)
      else
        var rest := ListLoad(ms[1..], load);
        ListResult(st.added + rest.added, st.decoys || rest.decoys, rest.stop)
  }

  /** What one line of a list contributes, and how it ends the load, if it does. */
  datatype LineResult = LineResult(added: seq<Sequence>, decoys: bool, stop: Option<ListStop>)

  function LineStep(m: ListLine, load: FileLoader): LineResult {
    match m
    case Skip => LineResult([], false, None)
    case Missing(p) => LineResult([], false, Some(MissingFile(p)))
    case Load(e) =>
      var o := load(e.path, e.decoy);
      LineResult(o.added, e.decoy != IsTarget, if o.error.Some? then Some(BadFasta(e.path, o.error.value)) else None)
  }

  /** The sequences of the files `entries` names, loaded each with its own policy, in order. */
  function EntriesSequences(entries: seq<ListEntry>, load: FileLoader): seq<Sequence> {
    if entries == [] then []
    else load(entries[0].path, entries[0].decoy).added + EntriesSequences(entries[1..], load)
  }

  /**
   * When no file fails to parse, loading a list appends the sequences of exactly the files
   * ListEntries names, in order, and stops at a missing path exactly when ListEntries does.
   */
  lemma {:induction false} ListLoadFollowsEntries(ms: seq<ListLine>, load: FileLoader)
    requires var es := ListEntries(ms).entries;
      forall k | 0 <= k < |es| :: load(es[k].path, es[k].decoy).error.None?
    ensures var r, l := ListLoad(ms, load), ListEntries(ms);
      && r.added == EntriesSequences(l.entries, load)
      && (r.stop.MissingFile? <==> l.missing.Some?)
      && (l.missing.Some? ==> r.stop == MissingFile(l.missing.value))
      && !r.stop.BadFasta?
  {
    if ms != [] {
      var tail := ListEntries(ms[1..]).entries;
      match ms[0]
      case Skip =>
        assert ListEntries(ms) == ListEntries(ms[1..]);
        assert ListLoad(ms, load) == ListLoad(ms[1..], load);
        ListLoadFollowsEntries(ms[1..], load);
      case Missing(p) =>
      case Load(e) =>
        var es := ListEntries(ms).entries;
        assert ListEntries(ms) == ListEntries(ms[1..]).(entries := [e] + tail);
        assert es == [e] + tail;
        forall k | 0 <= k < |tail|
          ensures load(tail[k].path, tail[k].decoy).error.None?
        {
          assert tail[k] == es[k + 1];
        }
        assert load(es[0].path, es[0].decoy).error.None?;
        ListLoadFollowsEntries(ms[1..], load);
        assert es[1..] == tail;
    }
  }
}
