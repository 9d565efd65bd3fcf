/**
  The thirteen root-server letters and the RIPE Atlas measurement that
  serves each of them (the `measurements` table of js/main.js).
 */
module Letters {

  /** One of the root-server letters 'a' through 'm'. */
  type Letter = c: char | 'a' <= c <= 'm' witness 'a'

  /** Every letter, i.e. the keys of the measurement table. */
  const AllLetters: set<Letter> := {'a', 'b', 'c', 'd', 'e', 'f', 'g', 'h', 'i', 'j', 'k', 'l', 'm'}

  /** The id of the IPv4 root-server test measurement for each letter. */
  function MeasurementId(l: Letter): (id: nat)
    ensures 10301 <= id <= 10316
  {
    match l
    case 'a' => 10309
    case 'b' => 10310
    case 'c' => 10311
    case 'd' => 10312
    case 'e' => 10313
    case 'f' => 10304
    case 'g' => 10314
    case 'h' => 10315
    case 'i' => 10305
    case 'j' => 10316
    case 'k' => 10301
    case 'l' => 10308
    case 'm' => 10306
  }

  lemma AllLettersCount()
    ensures |AllLetters| == 13
  {
  }

  /** The table covers exactly the thirteen letters. */
  lemma LettersComplete(l: Letter)
    ensures l in AllLetters
    ensures |AllLetters| == 13
  {
    AllLettersCount();
  }

  /** No two letters share a measurement, so each feed belongs to one letter. */
  lemma MeasurementIdInjective(a: Letter, b: Letter)
    ensures MeasurementId(a) == MeasurementId(b) <==> a == b
  {
  }
}
