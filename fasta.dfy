/**
 * The unwrapped two-line FASTA record both tools write: a `>` header line
 * followed by the whole sequence on one line.
 */
module Fasta {
  import opened Wrappers

  datatype Record = Record(header: string, residues: string)

  predicate SingleLine(s: string) {
    '\n' !in s
  }

  /** A record whose header and sequence each fit on one line. */
  predicate WellFormed(r: Record) {
    SingleLine(r.header) && SingleLine(r.residues)
  }

  /** The text of one record: `>` + header + newline + sequence + newline. */
  function Format(r: Record): string {
    ">" + r.header + "\n" + r.residues + "\n"
  }

  /** The text of a file holding `records` in order. */
  function Render(records: seq<Record>): string {
    if records == [] then "" else Format(records[0]) + Render(records[1..])
  }

  /** Writing one more record appends its text to the file. */
  lemma {:induction false} RenderAppend(records: seq<Record>, r: Record)
    ensures Render(records + [r]) == Render(records) + Format(r)
  {
    if records == [] {
      assert [] + [r] == [r];
      assert [r][1..] == [];
    } else {
      assert (records + [r])[1..] == records[1..] + [r];
      RenderAppend(records[1..], r);
    }
  }

  /** The first line of `t` and what follows its newline; `None` when `t` has no newline. */
  function TakeLine(t: string): (r: Option<(string, string)>)
    ensures r.None? <==> '\n' !in t
    ensures r.Some? ==> SingleLine(r.value.0) && t == r.value.0 + "\n" + r.value.1
  {
    if t == [] then None
    else if t[0] == '\n' then Some(("", t[1..]))
    else
      match TakeLine(t[1..])
      case None => None
      case Some((line, rest)) => Some(([t[0]] + line, rest))
  }

  lemma {:induction false} TakeLineOf(line: string, rest: string)
    requires SingleLine(line)
    ensures TakeLine(line + "\n" + rest) == Some((line, rest))
  {
    if line != [] {
      assert (line + "\n" + rest)[1..] == line[1..] + "\n" + rest;
      TakeLineOf(line[1..], rest);
      assert [line[0]] + line[1..] == line;
    }
  }

  /** A text that starts with `>` and splits into a header line and a sequence line is one record's text followed by the rest. */
  lemma Reassemble(text: string, header: string, afterHeader: string, residues: string, rest: string)
    requires |text| > 0 && text[0] == '>'
    requires text[1..] == header + "\n" + afterHeader
    requires afterHeader == residues + "\n" + rest
    ensures text == Format(Record(header, residues)) + rest
  {
  }

  /** Reads the first record of `text` and returns it with the text after it. */
  function ParseRecord(text: string): (r: Option<(Record, string)>)
    ensures r.Some? ==> WellFormed(r.value.0) && text == Format(r.value.0) + r.value.1
    ensures r.Some? ==> |r.value.1| < |text|
  {
    if text == [] || text[0] != '>' then None
    else
      match TakeLine(text[1..])
      case None => None
      case Some((header, afterHeader)) =>
        match TakeLine(afterHeader)
        case None => None
        case Some((residues, rest)) =>
          Reassemble(text, header, afterHeader, residues, rest);
          Some((Record(header, residues), rest))
  }

  /**
   * Reads a FASTA text back into records; `None` when the text is not a
   * sequence of two-line records. Whatever it reads renders back to the text.
   */
  function Parse(text: string): (r: Option<seq<Record>>)
    ensures r.Some? ==> Render(r.value) == text
    decreases |text|
  {
    if text == [] then Some([])
    else
      var first := ParseRecord(text);
      if first.None? then None
      else
        var more := Parse(first.value.1);
        if more.None? then None
        else
          var all := [first.value.0] + more.value;
          assert all[1..] == more.value;
          Some(all)
  }

  /** Every record `Parse` reads has a single-line header and sequence. */
  lemma {:induction false} ParsedWellFormed(text: string)
    requires Parse(text).Some?
    ensures forall i :: 0 <= i < |Parse(text).value| ==> WellFormed(Parse(text).value[i])
    decreases |text|
  {
    if text != [] {
      ParsedWellFormed(ParseRecord(text).value.1);
    }
  }

  /** Reading the text of well-formed records gives exactly those records back. */
  lemma {:induction false} ParseRender(records: seq<Record>)
    requires forall i :: 0 <= i < |records| ==> WellFormed(records[i])
    ensures Parse(Render(records)) == Some(records)
  {
    if records != [] {
      var r := records[0];
      var rest := Render(records[1..]);
      var text := Render(records);
      assert text == ">" + (r.header + "\n" + (r.residues + "\n" + rest));
      assert text[1..] == r.header + "\n" + (r.residues + "\n" + rest);
      TakeLineOf(r.header, r.residues + "\n" + rest);
      TakeLineOf(r.residues, rest);
      assert ParseRecord(text) == Some((r, rest));
      ParseRender(records[1..]);
      assert [r] + records[1..] == records;
    }
  }
}
