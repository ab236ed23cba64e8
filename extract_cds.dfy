/**
 * The CDS extractor: every `CDS` row of a GFF annotation becomes one FASTA
 * record cut from the genome, labelled by its `protein_id` (or `CDS_<n>`),
 * and the number of records written is reported at the end.
 *
 * `Extract` states what a run over the first lines of the annotation has
 * produced; `ExtractCdsRecords` is the line loop itself, proved to produce it.
 */
module ExtractCds {
  import opened Wrappers
  import PyStr
  import Nucleotide
  import Attributes
  import Fasta

  /** The genome as `SeqIO.to_dict` loads it: record identifier to sequence. */
  type Genome = map<string, string>

  /** The exceptions that abort a run. */
  datatype Failure =
    | TooManyFields(count: nat)         // the 9-way unpack of a longer row
    | BadCoordinate(text: string)       // `int()` rejects a start or end column
    | UnknownSeqid(seqid: string)       // `genome_dict[seqid]` has no such key
    | MalformedAttribute(item: string)  // `dict()` gets an item with several `=`

  /** What one annotation line does to the output. */
  datatype Step = Skip | Emit(record: Fasta.Record) | Abort(failure: Failure)

  /** The records written so far and, once a line has raised, the failure. */
  datatype Progress = Progress(records: seq<Fasta.Record>, failure: Option<Failure>)

  /** The count file's sentence around the number. */
  const ReportPrefix: string := "The HCMV genome (GCF_000845245.1) has "
  const ReportSuffix: string := " CDS.\n"

  // ---------------------------------------------------------------------
  // Python slicing

  /** Where a slice bound `i` lands in a sequence of length `len`: negative bounds count from the end, and bounds are clamped to the sequence. */
  function SliceBound(i: int, len: nat): (k: nat)
    ensures k <= len
    ensures 0 <= i <= len ==> k == i
    ensures i > len ==> k == len
    ensures i < 0 <= i + len ==> k == i + len
    ensures i + len < 0 ==> k == 0
  {
    if i < 0 then (if i + len < 0 then 0 else i + len)
    else if i > len then len
    else i
  }

  /** `s[start:end]` with Python's rules for negative and out-of-range bounds. */
  function PySlice(s: string, start: int, end: int): (r: string)
    ensures 0 <= start <= end <= |s| ==> r == s[start..end]
    ensures 0 <= end <= start <= |s| ==> r == []
    ensures |r| <= |s|
    ensures forall k :: 0 <= k < |r| ==> r[k] in s
  {
    var a := SliceBound(start, |s|);
    var b := SliceBound(end, |s|);
    if a < b then s[a..b] else []
  }

  /**
   * GFF coordinates are 1-based and inclusive: a start of 0 becomes the
   * bound -1, the last symbol, and an end past the sequence is cut back
   * to its length.
   */
  lemma SliceEdgeCases(s: string, end: int)
    requires |s| > 0
    ensures 0 <= end < |s| ==> PySlice(s, -1, end) == []
    ensures end >= |s| ==> PySlice(s, -1, end) == [s[|s| - 1]]
    ensures end > |s| ==> PySlice(s, 0, end) == s
  {
  }

  // ---------------------------------------------------------------------
  // One annotation line

  /** `line.startswith("#")`, tested before the line is stripped. */
  predicate IsComment(line: string) {
    PyStr.StartsWith(line, "#")
  }

  /** `line.strip().split("\t")` */
  function Fields(line: string): seq<string> {
    PyStr.Split(PyStr.Strip(line), '\t')
  }

  /** A line that reaches the coordinate conversion: not a comment, nine columns, type `CDS`. */
  predicate IsCdsRow(line: string) {
    !IsComment(line) && |Fields(line)| == 9 && Fields(line)[2] == "CDS"
  }

  /** The CDS sequence for GFF coordinates `start`..`end` on `strand`. */
  function CdsResidues(chromosome: string, start: int, end: int, strand: string): string {
    var slice := PySlice(chromosome, start - 1, end);
    if strand == "-" then Nucleotide.ReverseComplement(slice) else slice
  }

  /** `attr_dict.get("protein_id", f"CDS_{cds_count+1}")` */
  function Label(attributes: map<string, string>, cdsCount: nat): string {
    if "protein_id" in attributes then attributes["protein_id"]
    else "CDS_" + PyStr.NatToString(cdsCount + 1)
  }

  /** Without a `protein_id`, the label is `CDS_` and a number that reads back as the 1-based record number. */
  lemma GeneratedLabel(attributes: map<string, string>, cdsCount: nat)
    requires "protein_id" !in attributes
    ensures var header := Label(attributes, cdsCount);
            |header| > 4 && header[..4] == "CDS_" && PyStr.ParseInt(header[4..]) == Some(cdsCount + 1)
  {
    var header := Label(attributes, cdsCount);
    assert header[4..] == PyStr.NatToString(cdsCount + 1);
    PyStr.ParseNatToString(cdsCount + 1);
  }

  /** The effect of one line when `cdsCount` records have been written before it. */
  function ProcessLine(genome: Genome, line: string, cdsCount: nat): Step {
    if IsComment(line) then Skip
    else
      var parts := Fields(line);
      if |parts| < 9 then Skip
      else if |parts| > 9 then Abort(TooManyFields(|parts|))
      else if parts[2] != "CDS" then Skip
      else
        match PyStr.ParseInt(parts[3])
        case None => Abort(BadCoordinate(parts[3]))
        case Some(start) =>
          match PyStr.ParseInt(parts[4])
          case None => Abort(BadCoordinate(parts[4]))
          case Some(end) =>
            if parts[0] !in genome then Abort(UnknownSeqid(parts[0]))
            else
              var residues := CdsResidues(genome[parts[0]], start, end, parts[6]);
              match Attributes.Parse(parts[8])
              case Err(item) => Abort(MalformedAttribute(item))
              case Ok(attributes) => Emit(Fasta.Record(Label(attributes, cdsCount), residues))
  }

  // ---------------------------------------------------------------------
  // The whole annotation

  /** The progress after one more line has had `step` as its effect. */
  function Apply(before: Progress, step: Step): Progress {
    match step
    case Skip => before
    case Emit(record) => Progress(before.records + [record], None)
    case Abort(f) => Progress(before.records, Some(f))
  }

  /** What processing `lines` in order produces; nothing after the first failure is processed. */
  function Extract(genome: Genome, lines: seq<string>): Progress {
    if lines == [] then Progress([], None)
    else
      var before := Extract(genome, lines[..|lines| - 1]);
      if before.failure.Some? then before
      else Apply(before, ProcessLine(genome, lines[|lines| - 1], |before.records|))
  }

  /** The count file's text for `count` records. */
  function CountReport(count: nat): string {
    ReportPrefix + PyStr.NatToString(count) + ReportSuffix
  }

  /** The number in the count file reads back as the count it was written from. */
  lemma ReportStatesCount(count: nat)
    ensures var text := CountReport(count);
            |ReportPrefix| + |ReportSuffix| <= |text| &&
            PyStr.ParseInt(text[|ReportPrefix|..|text| - |ReportSuffix|]) == Some(count)
  {
    var text := CountReport(count);
    assert text[|ReportPrefix|..|text| - |ReportSuffix|] == PyStr.NatToString(count);
    PyStr.ParseNatToString(count);
  }

  /**
   * The body of the loop up to the write, with its `continue`s as early
   * returns of `Skip` and its exceptions as `Abort`: comment and column
   * checks, the 9-way unpack, the `CDS` filter, the coordinate conversion,
   * the genome lookup and slice, the reverse complement on `-`, the
   * attribute dictionary and the label. `ProcessLine` is its specification,
   * the form in which `Extract` and the lemmas about a run use it.
   */
  method ReadAnnotationLine(genome: Genome, line: string, cdsCount: nat) returns (step: Step)
    ensures step == ProcessLine(genome, line, cdsCount)
    ensures IsComment(line) || |Fields(line)| < 9 ==> step == Skip
    ensures !IsComment(line) && |Fields(line)| > 9 ==> step == Abort(TooManyFields(|Fields(line)|))
    ensures step.Emit? ==> IsCdsRow(line)
    ensures IsCdsRow(line) ==> !step.Skip?
    ensures step.Emit? ==>
              Fields(line)[0] in genome && Attributes.Parse(Fields(line)[8]).Ok? &&
              PyStr.ParseInt(Fields(line)[3]).Some? && PyStr.ParseInt(Fields(line)[4]).Some? &&
              step.record.header == Label(Attributes.Parse(Fields(line)[8]).value, cdsCount) &&
              step.record.residues == CdsResidues(genome[Fields(line)[0]], PyStr.ParseInt(Fields(line)[3]).value,
                                                  PyStr.ParseInt(Fields(line)[4]).value, Fields(line)[6])
  {
    if IsComment(line) {
      return Skip;
    }
    var parts := Fields(line);
    if |parts| < 9 {
      return Skip;
    }
    if |parts| > 9 {
      return Abort(TooManyFields(|parts|));
    }
    var seqid, featureType, startText, endText, strand, attributes :=
      parts[0], parts[2], parts[3], parts[4], parts[6], parts[8];
    if featureType != "CDS" {
      return Skip;
    }
    var start := PyStr.ParseInt(startText);
    if start == None {
      return Abort(BadCoordinate(startText));
    }
    var end := PyStr.ParseInt(endText);
    if end == None {
      return Abort(BadCoordinate(endText));
    }
    if seqid !in genome {
      return Abort(UnknownSeqid(seqid));
    }
    var residues := PySlice(genome[seqid], start.value - 1, end.value);
    if strand == "-" {
      residues := Nucleotide.ReverseComplement(residues);
    }
    var attrDict := Attributes.Parse(attributes);
    if attrDict.Err? {
      return Abort(MalformedAttribute(attrDict.error));
    }
    var proteinId := Label(attrDict.value, cdsCount);
    return Emit(Fasta.Record(proteinId, residues));
  }

  /**
   * The loop over the annotation lines. `fasta` is what the output file
   * holds when the loop ends (also when a line raised: the records before it
   * are already written), `report` is the count file's text, written only
   * when every line went through, and `failure` is the exception, if any.
   */
  method ExtractCdsRecords(genome: Genome, lines: seq<string>)
    returns (fasta: string, report: Option<string>, failure: Option<Failure>)
    ensures fasta == Fasta.Render(Extract(genome, lines).records)
    ensures failure == Extract(genome, lines).failure
    ensures report == if failure == None then Some(CountReport(|Extract(genome, lines).records|)) else None
  {
    var cdsCount: nat := 0;
    ghost var written: seq<Fasta.Record> := [];
    fasta, failure := "", None;
    var i := 0;
    while i < |lines| && failure == None
      invariant 0 <= i <= |lines|
      invariant Extract(genome, lines[..i]) == Progress(written, failure)
      invariant fasta == Fasta.Render(written) && cdsCount == |written|
    {
      var step := ReadAnnotationLine(genome, lines[i], cdsCount);
      ExtractNextLine(genome, lines, i);
      match step {
        case Skip =>
        case Abort(f) =>
          failure := Some(f);
        case Emit(record) =>
          Fasta.RenderAppend(written, record);
          fasta := fasta + Fasta.Format(record);
          written := written + [record];
          cdsCount := cdsCount + 1;
      }
      i := i + 1;
    }
    if failure == None {
      assert lines[..i] == lines;
    } else {
      AbortIsFinal(genome, lines, i);
    }
    report := if failure == None then Some(CountReport(cdsCount)) else None;
  }

  /** Before any failure, one more line applies its step to the progress so far. */
  lemma ExtractNextLine(genome: Genome, lines: seq<string>, i: nat)
    requires i < |lines| && Extract(genome, lines[..i]).failure == None
    ensures Extract(genome, lines[..i + 1])
            == Apply(Extract(genome, lines[..i]), ProcessLine(genome, lines[i], |Extract(genome, lines[..i]).records|))
  {
    assert lines[..i + 1][..i] == lines[..i];
  }

  /** Once a line has raised, the lines after it change nothing. */
  lemma {:induction false} AbortIsFinal(genome: Genome, lines: seq<string>, i: nat)
    requires i <= |lines|
    requires Extract(genome, lines[..i]).failure.Some?
    ensures Extract(genome, lines) == Extract(genome, lines[..i])
    decreases |lines|
  {
    if i < |lines| {
      var init := lines[..|lines| - 1];
      assert init[..i] == lines[..i];
      AbortIsFinal(genome, init, i);
    } else {
      assert lines[..i] == lines;
    }
  }

  // ---------------------------------------------------------------------
  // Properties of a single line

  /** Comments, rows of fewer than nine columns and rows of another feature type write nothing. */
  lemma {:induction false} IgnoredLineChangesNothing(genome: Genome, lines: seq<string>, line: string)
    requires IsComment(line) || |Fields(line)| < 9 || (|Fields(line)| == 9 && Fields(line)[2] != "CDS")
    ensures Extract(genome, lines + [line]) == Extract(genome, lines)
  {
    assert (lines + [line])[..|lines|] == lines;
  }

  /** A row of more than nine columns fails the unpack and aborts the run. */
  lemma {:induction false} WideRowAborts(genome: Genome, lines: seq<string>, line: string)
    requires !IsComment(line) && |Fields(line)| > 9
    requires Extract(genome, lines).failure == None
    ensures Extract(genome, lines + [line])
            == Progress(Extract(genome, lines).records, Some(TooManyFields(|Fields(line)|)))
  {
    assert (lines + [line])[..|lines|] == lines;
  }

  /** A CDS row naming a sequence the genome does not hold aborts instead of being skipped. */
  lemma UnknownSeqidAborts(genome: Genome, line: string, cdsCount: nat)
    requires IsCdsRow(line)
    requires PyStr.ParseInt(Fields(line)[3]).Some? && PyStr.ParseInt(Fields(line)[4]).Some?
    requires Fields(line)[0] !in genome
    ensures ProcessLine(genome, line, cdsCount) == Abort(UnknownSeqid(Fields(line)[0]))
  {
  }

  /**
   * Only a non-comment row of nine columns whose type is exactly `CDS` can
   * write a record, and such a row is never skipped: it writes or it aborts.
   */
  lemma OnlyCdsRowsWrite(genome: Genome, line: string, cdsCount: nat)
    ensures ProcessLine(genome, line, cdsCount).Emit? ==> IsCdsRow(line)
    ensures IsCdsRow(line) ==> !ProcessLine(genome, line, cdsCount).Skip?
  {
  }

  /**
   * GFF coordinates inside the sequence select the 1-based inclusive span
   * `start..end`, so `end - start + 1` symbols, taken as they are on any
   * strand but `-` and reverse-complemented on `-`.
   */
  lemma CdsResiduesInRange(chromosome: string, start: int, end: int, strand: string)
    requires 1 <= start && start - 1 <= end <= |chromosome|
    ensures var r := CdsResidues(chromosome, start, end, strand);
            |r| == end - start + 1 &&
            (strand != "-" ==> r == chromosome[start - 1..end]) &&
            (strand == "-" ==> r == Nucleotide.ReverseComplement(chromosome[start - 1..end])
                               && Nucleotide.ReverseComplement(r) == chromosome[start - 1..end])
  {
    if strand == "-" {
      Nucleotide.ReverseComplementInvolutive(chromosome[start - 1..end]);
    }
  }

  // ---------------------------------------------------------------------
  // Properties of a whole run

  /**
   * A line that writes a record writes exactly one, after all earlier
   * records, labelled by its `protein_id` or else `CDS_<n>` with `n` the
   * record's 1-based position among all records written, labelled or not.
   */
  lemma {:induction false} AppendedRecordLabel(genome: Genome, lines: seq<string>, line: string)
    requires Extract(genome, lines).failure == None
    requires |Extract(genome, lines + [line]).records| > |Extract(genome, lines).records|
    ensures var records := Extract(genome, lines + [line]).records;
            |records| == |Extract(genome, lines).records| + 1 &&
            records[..|records| - 1] == Extract(genome, lines).records &&
            IsCdsRow(line) && Attributes.Parse(Fields(line)[8]).Ok? &&
            var attributes := Attributes.Parse(Fields(line)[8]).value;
            records[|records| - 1].header ==
              if "protein_id" in attributes then attributes["protein_id"] else "CDS_" + PyStr.NatToString(|records|)
  {
    var before := Extract(genome, lines);
    assert (lines + [line])[..|lines|] == lines;
    var step := ProcessLine(genome, line, |before.records|);
    assert Extract(genome, lines + [line]) == Apply(before, step);
    EmittedRecord(genome, line, |before.records|, step.record);
  }

  /** The number of CDS rows among `lines`. */
  function CdsRowCount(lines: seq<string>): nat {
    if lines == [] then 0
    else CdsRowCount(lines[..|lines| - 1]) + (if IsCdsRow(lines[|lines| - 1]) then 1 else 0)
  }

  /** A run that raises nothing writes exactly one record per CDS row. */
  lemma {:induction false} CountIsCdsRows(genome: Genome, lines: seq<string>)
    requires Extract(genome, lines).failure == None
    ensures |Extract(genome, lines).records| == CdsRowCount(lines)
  {
    if lines != [] {
      var init := lines[..|lines| - 1];
      var last := lines[|lines| - 1];
      var before := Extract(genome, init);
      CountIsCdsRows(genome, init);
      OnlyCdsRowsWrite(genome, last, |before.records|);
    }
  }

  /** A line as a text file yields it: a newline, if any, only at its end. */
  predicate FileLine(line: string) {
    forall k :: 0 <= k < |line| - 1 ==> line[k] != '\n'
  }

  /** A genome as FASTA parsing yields it: every sequence on one line. */
  predicate SingleLineGenome(genome: Genome) {
    forall id :: id in genome ==> Fasta.SingleLine(genome[id])
  }

  /** The columns of a file line hold no newline. */
  lemma FieldsSingleLine(line: string)
    requires FileLine(line)
    ensures forall i :: 0 <= i < |Fields(line)| ==> Fasta.SingleLine(Fields(line)[i])
  {
    var stripped := PyStr.Strip(line);
    PyStr.StripDropsFinalNewline(line);
    PyStr.SplitPiecesFromSource(stripped, '\t');
  }

  /** A label taken from a single-line attribute column, or made of digits, holds no newline. */
  lemma LabelSingleLine(column: string, cdsCount: nat)
    requires Fasta.SingleLine(column) && Attributes.Parse(column).Ok?
    ensures Fasta.SingleLine(Label(Attributes.Parse(column).value, cdsCount))
  {
    var attributes := Attributes.Parse(column).value;
    if "protein_id" in attributes {
      Attributes.ValuesFromColumn(column);
    }
  }

  /** The sequence cut from a single-line chromosome holds no newline. */
  lemma ResiduesSingleLine(chromosome: string, start: int, end: int, strand: string)
    requires Fasta.SingleLine(chromosome)
    ensures Fasta.SingleLine(CdsResidues(chromosome, start, end, strand))
  {
    var slice := PySlice(chromosome, start - 1, end);
    if strand == "-" {
      Nucleotide.ReverseComplementKeepsLines(slice);
    }
  }

  /** The record a CDS row writes, in terms of its columns. */
  lemma EmittedRecord(genome: Genome, line: string, cdsCount: nat, record: Fasta.Record)
    requires ProcessLine(genome, line, cdsCount) == Emit(record)
    ensures IsCdsRow(line) && Fields(line)[0] in genome && Attributes.Parse(Fields(line)[8]).Ok?
    ensures PyStr.ParseInt(Fields(line)[3]).Some? && PyStr.ParseInt(Fields(line)[4]).Some?
    ensures record.header == Label(Attributes.Parse(Fields(line)[8]).value, cdsCount)
    ensures record.residues == CdsResidues(genome[Fields(line)[0]], PyStr.ParseInt(Fields(line)[3]).value,
                                           PyStr.ParseInt(Fields(line)[4]).value, Fields(line)[6])
  {
  }

  /** Every record written from a file line over such a genome is a proper two-line record. */
  lemma EmittedWellFormed(genome: Genome, line: string, cdsCount: nat, record: Fasta.Record)
    requires FileLine(line) && SingleLineGenome(genome)
    requires ProcessLine(genome, line, cdsCount) == Emit(record)
    ensures Fasta.WellFormed(record)
  {
    EmittedRecord(genome, line, cdsCount, record);
    var parts := Fields(line);
    FieldsSingleLine(line);
    LabelSingleLine(parts[8], cdsCount);
    ResiduesSingleLine(genome[parts[0]], PyStr.ParseInt(parts[3]).value, PyStr.ParseInt(parts[4]).value, parts[6]);
  }

  /** Every record of a run over file lines and a FASTA genome is a proper two-line record. */
  lemma {:induction false} RecordsWellFormed(genome: Genome, lines: seq<string>)
    requires forall i :: 0 <= i < |lines| ==> FileLine(lines[i])
    requires SingleLineGenome(genome)
    ensures forall i :: 0 <= i < |Extract(genome, lines).records| ==> Fasta.WellFormed(Extract(genome, lines).records[i])
  {
    if lines != [] {
      var init := lines[..|lines| - 1];
      var before := Extract(genome, init);
      RecordsWellFormed(genome, init);
      if before.failure == None {
        var step := ProcessLine(genome, lines[|lines| - 1], |before.records|);
        if step.Emit? {
          EmittedWellFormed(genome, lines[|lines| - 1], |before.records|, step.record);
        }
      }
    }
  }

  /**
   * For an annotation read from a text file and a genome read from FASTA, a
   * run that raises nothing writes a FASTA file that reads back as exactly
   * its records, one per CDS row, and a count file whose number is that
   * many records.
   */
  lemma {:induction false} CountAgreesWithFasta(genome: Genome, lines: seq<string>)
    requires forall i :: 0 <= i < |lines| ==> FileLine(lines[i])
    requires SingleLineGenome(genome)
    requires Extract(genome, lines).failure == None
    ensures var records := Extract(genome, lines).records;
            Fasta.Parse(Fasta.Render(records)) == Some(records) &&
            |records| == CdsRowCount(lines) &&
            var report := CountReport(|records|);
            |ReportPrefix| + |ReportSuffix| <= |report| &&
            PyStr.ParseInt(report[|ReportPrefix|..|report| - |ReportSuffix|]) == Some(|records|)
  {
    var records := Extract(genome, lines).records;
    RecordsWellFormed(genome, lines);
    Fasta.ParseRender(records);
    CountIsCdsRows(genome, lines);
    ReportStatesCount(|records|);
  }
}
