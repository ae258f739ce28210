/** FileCompressUtil: the compression level a client asks for, and the
    output quality handed to the JPEG encoder for it. Java returns a
    `double`; the model keeps the quality in exact tenths (8 stands for 0.8). */
module CompressTable {

  datatype CompressLevel = NONE | LOW | MEDIUM | HIGH | EXTREME | ULTRA

  /** The levels that actually compress, from mildest to strongest. */
  const Ladder: seq<CompressLevel> := [LOW, MEDIUM, HIGH, EXTREME, ULTRA]

  /** `getCompressValue(level)`, times ten. */
  function QualityTenths(level: CompressLevel): (q: nat)
    ensures 0 < q <= 10
    ensures q == 10 <==> level !in Ladder
  {
    if level == LOW then 8
    else if level == MEDIUM then 6
    else if level == HIGH then 4
    else if level == EXTREME then 2
    else if level == ULTRA then 1
    else 10
  }

  /** The table itself: 0.8, 0.6, 0.4, 0.2, 0.1, and 1 for anything else. */
  lemma QualityTable()
    ensures QualityTenths(LOW) == 8 && QualityTenths(MEDIUM) == 6
    ensures QualityTenths(HIGH) == 4 && QualityTenths(EXTREME) == 2
    ensures QualityTenths(ULTRA) == 1 && QualityTenths(NONE) == 10
  {
  }

  /** A stronger level never asks for a better quality: the quality strictly
      falls along LOW, MEDIUM, HIGH, EXTREME, ULTRA. */
  lemma QualityFallsAlongLadder(i: nat, j: nat)
    requires i < j < |Ladder|
    ensures QualityTenths(Ladder[i]) > QualityTenths(Ladder[j])
  {
  }
}
