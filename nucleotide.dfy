/**
 * Watson-Crick complement over the IUPAC nucleotide alphabet, and the
 * reverse complement applied to a minus-strand CDS.
 */
module Nucleotide {

  /**
   * The complement of one symbol: A/T and C/G swap, each ambiguity code maps
   * to the code of the complementary set (M/K, R/Y, V/B, H/D; W, S, N and X
   * are their own complements), lower case stays lower case, and any other
   * character is left as it is.
   */
  function Complement(c: char): char {
    match c
    case 'A' => 'T'  case 'T' => 'A'  case 'C' => 'G'  case 'G' => 'C'
    case 'M' => 'K'  case 'K' => 'M'  case 'R' => 'Y'  case 'Y' => 'R'
    case 'V' => 'B'  case 'B' => 'V'  case 'H' => 'D'  case 'D' => 'H'
    case 'a' => 't'  case 't' => 'a'  case 'c' => 'g'  case 'g' => 'c'
    case 'm' => 'k'  case 'k' => 'm'  case 'r' => 'y'  case 'y' => 'r'
    case 'v' => 'b'  case 'b' => 'v'  case 'h' => 'd'  case 'd' => 'h'
    case _ => c
  }

  /** Complementing twice gives the symbol back. */
  lemma ComplementInvolutive(c: char)
    ensures Complement(Complement(c)) == c
  {
  }

  /**
   * The reverse complement: position `k` of the result is the complement of
   * position `|s| - 1 - k` of the input.
   */
  function ReverseComplement(s: string): (r: string)
    ensures |r| == |s|
    ensures forall k :: 0 <= k < |s| ==> r[k] == Complement(s[|s| - 1 - k])
  {
    if s == [] then [] else ReverseComplement(s[1..]) + [Complement(s[0])]
  }

  /** Reverse-complementing twice gives the sequence back. */
  lemma ReverseComplementInvolutive(s: string)
    ensures ReverseComplement(ReverseComplement(s)) == s
  {
    var r := ReverseComplement(s);
    forall k | 0 <= k < |s| ensures ReverseComplement(r)[k] == s[k] {
      ComplementInvolutive(s[k]);
    }
  }

  /** Only a newline complements to a newline, so single-line sequences stay single-line. */
  lemma ReverseComplementKeepsLines(s: string)
    requires '\n' !in s
    ensures '\n' !in ReverseComplement(s)
  {
    var r := ReverseComplement(s);
    forall k | 0 <= k < |r| ensures r[k] != '\n' {
      ComplementInvolutive(s[|s| - 1 - k]);
    }
  }
}
