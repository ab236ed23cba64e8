/**
 * The longest-contig selector: `max(contigs, key=lambda r: len(r.seq))`
 * over the assembled contigs, written out as a single FASTA record.
 */
module LongestContig {
  import opened Wrappers
  import Fasta

  /** `len(r.seq)`, the key `max` compares. */
  function Length(contig: Fasta.Record): nat {
    |contig.residues|
  }

  /**
   * The index `max` settles on. It scans left to right and a later contig
   * replaces the current choice only when it is strictly longer, so the
   * choice is at least as long as every contig and strictly longer than
   * every contig before it: the first of the longest.
   */
  function MaxIndex(contigs: seq<Fasta.Record>): (k: nat)
    requires |contigs| > 0
    ensures k < |contigs|
    ensures forall j :: 0 <= j < |contigs| ==> Length(contigs[j]) <= Length(contigs[k])
    ensures forall j :: 0 <= j < k ==> Length(contigs[j]) < Length(contigs[k])
  {
    if |contigs| == 1 then 0
    else
      var k := MaxIndex(contigs[..|contigs| - 1]);
      if Length(contigs[|contigs| - 1]) > Length(contigs[k]) then |contigs| - 1 else k
  }

  /** The two properties of `MaxIndex` pin the index down: no other index has both. */
  lemma FirstLongestIsUnique(contigs: seq<Fasta.Record>, k: nat)
    requires k < |contigs|
    requires forall j :: 0 <= j < |contigs| ==> Length(contigs[j]) <= Length(contigs[k])
    requires forall j :: 0 <= j < k ==> Length(contigs[j]) < Length(contigs[k])
    ensures MaxIndex(contigs) == k
  {
  }

  /**
   * The contig `max` returns: one of the input, at least as long as every
   * contig, and the first one of that length; `None` for the `ValueError`
   * `max` raises on an empty list.
   */
  function Longest(contigs: seq<Fasta.Record>): (r: Option<Fasta.Record>)
    ensures r.None? <==> contigs == []
    ensures r.Some? ==> r.value in contigs
    ensures r.Some? ==> forall c :: c in contigs ==> Length(c) <= Length(r.value)
    ensures r.Some? ==> exists k :: 0 <= k < |contigs| && contigs[k] == r.value &&
                                    forall j :: 0 <= j < k ==> Length(contigs[j]) < Length(r.value)
  {
    if contigs == [] then None else Some(contigs[MaxIndex(contigs)])
  }

  /** The text of the output file, or `None` when there is nothing to select. */
  function WriteLongest(contigs: seq<Fasta.Record>): (r: Option<string>)
    ensures r.None? <==> contigs == []
  {
    match Longest(contigs)
    case None => None
    case Some(contig) => Some(Fasta.Render([contig]))
  }

  /**
   * For a non-empty assembly of single-line records, the output file reads
   * back as exactly one record: the selected contig.
   */
  lemma WritesOneRecord(contigs: seq<Fasta.Record>)
    requires contigs != []
    requires forall i :: 0 <= i < |contigs| ==> Fasta.WellFormed(contigs[i])
    ensures WriteLongest(contigs).Some?
    ensures Fasta.Parse(WriteLongest(contigs).value) == Some([contigs[MaxIndex(contigs)]])
  {
    var chosen := contigs[MaxIndex(contigs)];
    Fasta.ParseRender([chosen]);
  }
}
