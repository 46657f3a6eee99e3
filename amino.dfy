/** The residue record of the HP model and its hydrophobic/polar classifier. */
module Amino {
  import opened Lattice

  /** The two classes of the HP model. */
  datatype HpType = H | P

  /** The one-letter codes classified hydrophobic. */
  const HydrophobicAminos: seq<string> := ["A", "V", "I", "L", "M", "F", "Y", "W"]

  /** A residue: its lattice position, its HP class and its index in the chain. */
  datatype AminoAcid = AminoAcid(position: Pos, hpType: HpType, index: int)

  /** The letters of the hydrophobic codes. */
  predicate IsHydrophobic(ch: char)
  {
    ch == 'A' || ch == 'V' || ch == 'I' || ch == 'L' || ch == 'M' || ch == 'F' || ch == 'Y' || ch == 'W'
  }

  /** The HP class of a single letter. */
  function LetterType(ch: char): HpType
  {
    if IsHydrophobic(ch) then H else P
  }

  /** The HP class of a one-letter code: hydrophobic exactly for the eight
      upper-case codes A, V, I, L, M, F, Y, W; every other string, lower case,
      unknown or longer, is polar. */
  function GetType(oneLetterAa: string): (t: HpType)
    ensures t == H <==> |oneLetterAa| == 1 && IsHydrophobic(oneLetterAa[0])
    ensures |oneLetterAa| == 1 ==> t == LetterType(oneLetterAa[0])
  {
    assert |oneLetterAa| == 1 ==> oneLetterAa == [oneLetterAa[0]];
    if oneLetterAa in HydrophobicAminos then H else P
  }

  /** The constructor: position and index are stored as given, the class
      depends on the letter alone. */
  function NewAminoAcid(position: Pos, oneLetterAa: string, index: int): (a: AminoAcid)
    ensures a.position == position && a.index == index
    ensures a.hpType == H <==> oneLetterAa in HydrophobicAminos
  {
    AminoAcid(position, GetType(oneLetterAa), index)
  }

  /** The position a residue has before placement (the constructor's default). */
  const Origin: Pos := Pos(0, 0)
}
