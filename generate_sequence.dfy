/** The input generator: random DNA sequences over "ACGT", and the rule
    that places the output file inside the `input` directory.  Strings are
    sequences of characters without the terminating NUL; `rand()` is
    replaced by the sequence of values it returned. */
module GenerateSequence {
  /** The directory prefix every output path must carry. */
  const INPUT_PREFIX: string := "input/"

  /** The size of `outpath`, NUL included. */
  const OUTPATH_SIZE := 4096

  /** The four nucleotides, indexed by `rand() % 4`. */
  const NUCLEOTIDES: string := "ACGT"

  /** `strncmp(filename, "input/", 6) == 0`. */
  predicate HasInputPrefix(f: string) {
    |f| >= |INPUT_PREFIX| && f[..|INPUT_PREFIX|] == INPUT_PREFIX
  }

  /** What `snprintf` leaves in a buffer of OUTPATH_SIZE characters: the
      text cut to its first OUTPATH_SIZE - 1 characters. */
  function Truncate(s: string): (r: string)
    ensures |r| <= OUTPATH_SIZE - 1
    ensures |s| < OUTPATH_SIZE ==> r == s
    ensures |s| >= OUTPATH_SIZE ==> |r| == OUTPATH_SIZE - 1 && r == s[..|r|]
  {
    if |s| < OUTPATH_SIZE then s else s[..OUTPATH_SIZE - 1]
  }

  /** The output path `main` builds from its `filename` argument: the name
      itself when it already starts with "input/", otherwise "input/"
      followed by the name, cut to fit `outpath`.  Either way the path
      starts with "input/" and fits the buffer. */
  function OutputPath(filename: string): (outpath: string)
    ensures |outpath| <= OUTPATH_SIZE - 1
    ensures HasInputPrefix(outpath)
  {
    if HasInputPrefix(filename) then Truncate(filename)
    else
      var joined := "input" + "/" + filename;
      assert joined[..|INPUT_PREFIX|] == INPUT_PREFIX;
      Truncate(joined)
  }

  /** A name already inside "input/" is kept as it is, when it fits. */
  lemma OutputPathKeeps(filename: string)
    requires HasInputPrefix(filename) && |filename| < OUTPATH_SIZE
    ensures OutputPath(filename) == filename
  {
  }

  /** Any other name gets "input/" in front, when the result fits. */
  lemma OutputPathAdds(filename: string)
    requires !HasInputPrefix(filename) && |INPUT_PREFIX + filename| < OUTPATH_SIZE
    ensures OutputPath(filename) == INPUT_PREFIX + filename
  {
  }

  /** A name too long for the buffer keeps only its first characters: the
      path is a prefix of what the rule would build without the limit. */
  lemma OutputPathCut(filename: string)
    ensures var full := if HasInputPrefix(filename) then filename else INPUT_PREFIX + filename;
            |OutputPath(filename)| == if |full| < OUTPATH_SIZE then |full| else OUTPATH_SIZE - 1
    ensures var full := if HasInputPrefix(filename) then filename else INPUT_PREFIX + filename;
            OutputPath(filename) == full[..|OutputPath(filename)|]
  {
  }

  /** Applying the rule to its own output changes nothing. */
  lemma OutputPathIdempotent(filename: string)
    ensures OutputPath(OutputPath(filename)) == OutputPath(filename)
  {
    OutputPathKeeps(OutputPath(filename));
  }

  /** The sequence `generate_dna_sequence` writes for the `rand()` values
      `draws`: one nucleotide per value, chosen by the value modulo 4. */
  function DnaSequence(draws: seq<nat>): (s: string)
    ensures |s| == |draws|
    ensures forall i :: 0 <= i < |s| ==> s[i] in NUCLEOTIDES
  {
    seq(|draws|, i requires 0 <= i < |draws| => NUCLEOTIDES[draws[i] % 4])
  }

  /** The `rand()` values that make the generator write `s`: the index of
      each letter in "ACGT". */
  function DrawsFor(s: string): (draws: seq<nat>)
    requires forall i :: 0 <= i < |s| ==> s[i] in NUCLEOTIDES
    ensures |draws| == |s| && forall i :: 0 <= i < |s| ==> draws[i] < 4
  {
    seq(|s|, i requires 0 <= i < |s| => if s[i] == 'A' then 0 else if s[i] == 'C' then 1 else if s[i] == 'G' then 2 else 3)
  }

  /** Every sequence over "ACGT" can come out of the generator. */
  lemma DnaSequenceOnto(s: string)
    requires forall i :: 0 <= i < |s| ==> s[i] in NUCLEOTIDES
    ensures DnaSequence(DrawsFor(s)) == s
  {
    var t := DnaSequence(DrawsFor(s));
    forall i | 0 <= i < |s| ensures t[i] == s[i] {
      assert s[i] in NUCLEOTIDES;
    }
  }

  /** `generate_dna_sequence(buffer, length)`: the first `length` cells get
      the letters `draws` selects, then the terminating NUL; the cells
      after it are untouched. */
  method GenerateDnaSequence(buffer: array<char>, length: int, draws: seq<nat>)
    requires 0 <= length < buffer.Length && |draws| == length
    modifies buffer
    ensures buffer[..length] == DnaSequence(draws) && buffer[length] == '\0'
    ensures buffer[length + 1..] == old(buffer[length + 1..])
  {
    var nucleotides := NUCLEOTIDES;
    for i := 0 to length
      invariant buffer[..i] == DnaSequence(draws)[..i]
      invariant buffer[length + 1..] == old(buffer[length + 1..])
    {
      buffer[i] := nucleotides[draws[i] % 4];
    }
    buffer[length] := '\0';
  }
}
