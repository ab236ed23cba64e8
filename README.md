# CDS extraction and longest-contig selection, in Dafny

This project models the sequence-processing core of two short Biopython
scripts from an RNA-seq analysis pipeline for the HCMV genome.

- `SCRIPTS/extract_cds.py` reads a GFF annotation line by line. It skips
  comments and short rows, unpacks the nine tab-separated columns and keeps
  the `CDS` rows. It cuts each row's 1-based inclusive span out of the
  genome and reverse-complements it on the `-` strand. It labels the record
  with the row's `protein_id` attribute, or with `CDS_<n>` when there is
  none, and writes it as a two-line FASTA record. At the end it writes a
  one-sentence count file.
- `SCRIPTS/longest_contig.py` picks the longest contig of an assembly with
  Python's `max`, which keeps the first of several equally long contigs. It
  writes that contig as a single FASTA record.

The project has these modules:

- `PyStr` (`pystr.dfy`) models the Python string built-ins the loop relies
  on: `startswith`, `strip()` with Python's whitespace set, `split(sep)`,
  `int()` on a decimal literal, and `str(n)`.
- `Nucleotide` (`nucleotide.dfy`) models the IUPAC complement and the
  reverse complement.
- `Attributes` (`attributes.dfy`) models the `dict(...)` comprehension over
  the ninth column.
- `Fasta` (`fasta.dfy`) models the two-line record format. It has a reader
  that inverts it, so that statements about "the records in the output
  file" can be made.
- `ExtractCds` (`extract_cds.dfy`) holds the extractor:
  - `ProcessLine` says what one line does: skip it, write one record, or
    raise.
  - `Extract` says what a run over the first lines has produced.
  - `ReadAnnotationLine` is the loop body written as the script writes it.
  - `ExtractCdsRecords` is the loop itself, proved to produce what
    `Extract` says.
- `LongestContig` (`longest_contig.dfy`) holds the selection.

A few Python behaviours are modelled explicitly rather than assumed away:

- Python slicing: a start coordinate of 0 becomes the bound -1, which counts
  from the end, and bounds past the end are clamped.
- The exceptions the loop can raise. Each one stops the run. The FASTA file
  keeps the records written before it, and no count file is written.
- The `ValueError` that `dict` raises on an attribute item with more than
  one `=`. The code calls `item.split("=")` and passes the pieces to
  `dict`, so an item with more than one `=` aborts the run.

## Model

| member | source | states |
|---|---|---|
| PyStr.Strip | SCRIPTS/extract_cds.py:75 | `line.strip()` over Python's `isspace` set; specified by `PyStr.StripTrims` and `PyStr.StripDropsFinalNewline` |
| PyStr.StripTrims | SCRIPTS/extract_cds.py:75 | `strip()` returns a slice of the line that neither starts nor ends with whitespace, and everything it drops on either side is whitespace |
| PyStr.StripDropsFinalNewline | SCRIPTS/extract_cds.py:75 | a line whose only newline is its last character has no newline once stripped |
| PyStr.Split | SCRIPTS/extract_cds.py:75 | `split` returns at least one piece, no piece contains the separator, and joining the pieces with the separator gives the input back |
| PyStr.SplitPiecesFromSource | SCRIPTS/extract_cds.py:75 | every character of every piece occurs in the string that was split |
| PyStr.SplitJoin | SCRIPTS/extract_cds.py:97 | splitting pieces that were joined with a separator they do not contain gives exactly those pieces back |
| PyStr.ParseInt | SCRIPTS/extract_cds.py:86-87 | `int()` on a coordinate column: surrounding whitespace, an optional sign and ASCII digits, `None` for the `ValueError`; specified by `PyStr.ParseNatToString` |
| PyStr.NatToString | SCRIPTS/extract_cds.py:98 | the decimal rendering of a counter is a non-empty string of digits whose value is the counter, with no leading zero |
| PyStr.ParseNatToString | SCRIPTS/extract_cds.py:86-87 | `int()` reads the decimal rendering of a non-negative number back as that number |
| PyStr.NatToStringInjective | SCRIPTS/extract_cds.py:98 | different counters give different `CDS_<n>` suffixes |
| Nucleotide.Complement | SCRIPTS/extract_cds.py:94 | the complement of one IUPAC symbol, case kept, other symbols unchanged; specified by `Nucleotide.ComplementInvolutive` |
| Nucleotide.ComplementInvolutive | SCRIPTS/extract_cds.py:94 | complementing a symbol twice gives it back |
| Nucleotide.ReverseComplement | SCRIPTS/extract_cds.py:94 | the reverse complement has the input's length, and position k holds the complement of the position mirrored from the end |
| Nucleotide.ReverseComplementInvolutive | SCRIPTS/extract_cds.py:93-94 | reverse-complementing twice gives the sequence back |
| Nucleotide.ReverseComplementKeepsLines | SCRIPTS/extract_cds.py:94 | the reverse complement of a sequence without newline has no newline |
| Attributes.PairOfKeyValue | SCRIPTS/extract_cds.py:97 | `key=value` with no other `=` splits into exactly that key and that value |
| Attributes.Collect | SCRIPTS/extract_cds.py:97 | the `dict(...)` built from the items in order; specified by `Attributes.CollectFails`, `Attributes.CollectKeys`, `Attributes.CollectValues` and `Attributes.CollectLastWins` |
| Attributes.Parse | SCRIPTS/extract_cds.py:97 | the ninth column split on `;` and collected; specified by the `Collect` lemmas and `Attributes.ValuesFromColumn` |
| Attributes.CollectFails | SCRIPTS/extract_cds.py:97 | building the dictionary fails if and only if some item has more than one `=`, and the failure names the first such item |
| Attributes.CollectKeys | SCRIPTS/extract_cds.py:97 | the dictionary's keys are exactly the keys of the items that contain `=`; items without `=` contribute nothing |
| Attributes.CollectValues | SCRIPTS/extract_cds.py:97 | every value in the dictionary is the value of an item with that key |
| Attributes.CollectLastWins | SCRIPTS/extract_cds.py:97 | for the last item with a given key, the dictionary maps that key to that item's value, so a later duplicate overwrites an earlier one |
| Attributes.ValuesFromColumn | SCRIPTS/extract_cds.py:97-98 | every character of an attribute value, and so of a `protein_id` label, occurs in the attribute column |
| Fasta.Format | SCRIPTS/extract_cds.py:101 | the text of one record, `>` + header + newline + sequence + newline; specified by `Fasta.RenderAppend` and `Fasta.ParseRender` |
| Fasta.Render | SCRIPTS/extract_cds.py:65-101 | the output file's text, the records' texts in order; specified by `Fasta.RenderAppend` and `Fasta.ParseRender` |
| Fasta.RenderAppend | SCRIPTS/extract_cds.py:101 | writing one more record appends exactly `>` + header + newline + sequence + newline to the file |
| Fasta.Parse | SCRIPTS/extract_cds.py:101 | whatever the reader accepts renders back to the same text |
| Fasta.ParsedWellFormed | SCRIPTS/extract_cds.py:101 | every record the reader returns has a single-line header and sequence |
| Fasta.ParseRender | SCRIPTS/extract_cds.py:101 | the text of single-line records reads back as exactly those records, in order |
| ExtractCds.IsComment | SCRIPTS/extract_cds.py:71 | `line.startswith("#")` on the raw line; specified by `ExtractCds.IgnoredLineChangesNothing` and `ExtractCds.ReadAnnotationLine` |
| ExtractCds.Apply | SCRIPTS/extract_cds.py:101-104 | a written record is appended after the earlier ones and the counter grows by one; an exception stops the run; specified by `ExtractCds.AppendedRecordLabel` and `ExtractCds.AbortIsFinal` |
| ExtractCds.Fields | SCRIPTS/extract_cds.py:75 | `line.strip().split("\t")`; specified by `PyStr.Split`, `PyStr.StripTrims` and `ExtractCds.FieldsSingleLine` |
| ExtractCds.CdsResidues | SCRIPTS/extract_cds.py:86-94 | the row's slice, reverse-complemented on `-`; specified by `ExtractCds.CdsResiduesInRange` and `ExtractCds.ResiduesSingleLine` |
| ExtractCds.Label | SCRIPTS/extract_cds.py:98 | `protein_id` if present, else `CDS_<count+1>`; specified by `ExtractCds.GeneratedLabel` and `ExtractCds.LabelSingleLine` |
| ExtractCds.GeneratedLabel | SCRIPTS/extract_cds.py:98 | without a `protein_id` the label is `CDS_` followed by a number that reads back as the counter plus one |
| ExtractCds.ProcessLine | SCRIPTS/extract_cds.py:71-98 | what one line does (skip, the record to write, or the exception), in the script's order of checks; specified by `ExtractCds.ReadAnnotationLine`, `ExtractCds.OnlyCdsRowsWrite`, `ExtractCds.UnknownSeqidAborts` and `ExtractCds.EmittedRecord` |
| ExtractCds.Extract | SCRIPTS/extract_cds.py:69-104 | the records written and the exception raised by the first lines; specified by `ExtractCds.ExtractCdsRecords`, `ExtractCds.AbortIsFinal`, `ExtractCds.IgnoredLineChangesNothing`, `ExtractCds.WideRowAborts`, `ExtractCds.AppendedRecordLabel` and `ExtractCds.CountIsCdsRows` |
| ExtractCds.CountReport | SCRIPTS/extract_cds.py:107-108 | the count sentence; specified by `ExtractCds.ReportStatesCount` |
| ExtractCds.SliceBound | SCRIPTS/extract_cds.py:90 | a slice bound inside the sequence is kept, a negative one counts from the end, and one outside is clamped to 0 or to the length |
| ExtractCds.PySlice | SCRIPTS/extract_cds.py:90 | a slice with in-range bounds is the subsequence between them, and empty when the bounds are reversed; any slice is no longer than the sequence and is made of its symbols |
| ExtractCds.SliceEdgeCases | SCRIPTS/extract_cds.py:86-90 | a start coordinate of 0 wraps to the last symbol and yields at most that symbol; an end past the sequence is cut back to its length |
| ExtractCds.CdsResiduesInRange | SCRIPTS/extract_cds.py:86-94 | in-range coordinates give the span start-1..end, of length end-start+1, unchanged on any strand but `-` and reverse-complemented on `-`, where reverse-complementing again gives the span back |
| ExtractCds.ReadAnnotationLine | SCRIPTS/extract_cds.py:71-98 | a comment or a row of fewer than nine columns is skipped; a row of more than nine columns raises on the unpack; only a `CDS` row writes, and a `CDS` row is never skipped; the record written has the row's label as header and the row's strand-corrected slice as sequence; and the outcome is `ProcessLine`'s, which the loop relies on |
| ExtractCds.ExtractCdsRecords | SCRIPTS/extract_cds.py:62-108 | the loop writes the FASTA text of the records `Extract` gives and stops at the same exception; the count file is written, with the number of records, only when nothing was raised |
| ExtractCds.ExtractNextLine | SCRIPTS/extract_cds.py:69-104 | helper for the loop invariant of `ExtractCds.ExtractCdsRecords`: `Extract`'s definition unfolded at a prefix of the lines |
| ExtractCds.AbortIsFinal | SCRIPTS/extract_cds.py:69-104 | once a line has raised, the lines after it change nothing |
| ExtractCds.IgnoredLineChangesNothing | SCRIPTS/extract_cds.py:71-83 | a comment line (tested before stripping), a row of fewer than nine columns, or a nine-column row whose type is not `CDS` leaves the records and the counter unchanged |
| ExtractCds.WideRowAborts | SCRIPTS/extract_cds.py:75-79 | a row of more than nine columns fails the unpack: the run stops and keeps its records |
| ExtractCds.UnknownSeqidAborts | SCRIPTS/extract_cds.py:90 | a CDS row whose sequence identifier is not in the genome raises instead of being skipped |
| ExtractCds.OnlyCdsRowsWrite | SCRIPTS/extract_cds.py:71-83 | only a non-comment nine-column row of type exactly `CDS` writes a record, and such a row is never skipped |
| ExtractCds.EmittedRecord | SCRIPTS/extract_cds.py:86-101 | the record a row writes has the row's label as its header and the row's cut, strand-corrected span as its sequence |
| ExtractCds.AppendedRecordLabel | SCRIPTS/extract_cds.py:98-104 | a line that writes adds exactly one record after the earlier ones, labelled with its `protein_id` or else `CDS_<n>`, where n is the record's 1-based position among all records written |
| ExtractCds.CountIsCdsRows | SCRIPTS/extract_cds.py:82-104 | a run that raises nothing writes exactly one record per CDS row |
| ExtractCds.FieldsSingleLine | SCRIPTS/extract_cds.py:75 | no column of a line read from a file holds a newline |
| ExtractCds.LabelSingleLine | SCRIPTS/extract_cds.py:98 | a label taken from a single-line column, or made up from the counter, holds no newline |
| ExtractCds.ResiduesSingleLine | SCRIPTS/extract_cds.py:90-94 | a sequence cut from a single-line chromosome holds no newline |
| ExtractCds.EmittedWellFormed | SCRIPTS/extract_cds.py:101 | every record written from a file line over a FASTA genome is a proper two-line record |
| ExtractCds.RecordsWellFormed | SCRIPTS/extract_cds.py:101 | every record of a whole run is a proper two-line record |
| ExtractCds.ReportStatesCount | SCRIPTS/extract_cds.py:107-108 | the number in the count sentence reads back as the count it was written from |
| ExtractCds.CountAgreesWithFasta | SCRIPTS/extract_cds.py:101-108 | after a run that raises nothing, the FASTA file reads back as exactly its records, one per CDS row, and the count file states that number |
| LongestContig.Length | SCRIPTS/longest_contig.py:32 | the key `len(r.seq)` that `max` compares; specified through `LongestContig.MaxIndex` and `LongestContig.Longest` |
| LongestContig.MaxIndex | SCRIPTS/longest_contig.py:32 | the index `max` settles on is in range, at least as long as every contig, and strictly longer than every contig before it |
| LongestContig.FirstLongestIsUnique | SCRIPTS/longest_contig.py:32 | only the first longest contig has both properties, so they determine the selection |
| LongestContig.Longest | SCRIPTS/longest_contig.py:29-32 | there is no result for an empty assembly; otherwise the result is one of the contigs, at least as long as every contig, and the first contig of that length |
| LongestContig.WriteLongest | SCRIPTS/longest_contig.py:34 | the output text, absent exactly when there is no contig; specified by `LongestContig.WritesOneRecord` |
| LongestContig.WritesOneRecord | SCRIPTS/longest_contig.py:34 | the output file reads back as exactly one record: the selected contig |

## Left out

- Command-line parsing with `argparse` is not modelled: it only supplies the file names.
- File handling is not modelled: opening, reading and closing the files, and Biopython's `SeqIO.parse`, `SeqIO.to_dict` and `SeqIO.write`.
  - The annotation is given as its sequence of lines. Each line keeps its final newline, as a text file yields it.
  - The genome is given as a map from record identifier to sequence, and the assembly as a sequence of records.
  - The outputs are returned as text.
- The genome map does not model `SeqIO.to_dict` raising on a duplicate record identifier.
- LongestContig.WriteLongest: writes the record on two lines. `SeqIO.write` wraps the sequence at 60 columns and builds the header from the record's identifier and description.
- Nucleotide.Complement: leaves `U` and `u` unchanged, whereas Biopython's DNA complement maps them to `A` and `a`. With that mapping, complementing would no longer be an involution. All other symbols, gaps included, are treated as Biopython treats them.
- PyStr.ParseInt: handles surrounding whitespace, an optional sign and ASCII digits. Python's `int()` also accepts `_` between digits and non-ASCII decimal digits; both are not modelled.
- The exception messages are not modelled: a failure records which exception a line raises and the value that caused it.
- ExtractCds.ExtractCdsRecords: when a line raises, the result reports the failure instead of propagating an exception.
- The count sentence's wording is kept as two constants, but no property is stated about the wording beyond the number it embeds.
