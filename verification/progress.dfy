/**
  The set of letters whose feed has not completed yet (`pending`,
  js/main.js:111 and 159). It starts as every key of the measurement table
  and loses one letter per completed feed.
 */
module Progress {
  import opened Letters

  /** `Object.keys(measurements).reduce((p, c) => (p[c] = 1, p), {})` */
  function InitialPending(): (p: set<Letter>)
    ensures |p| == 13
    ensures forall l: Letter :: l in p
  {
    LettersComplete('a');
    forall l: Letter ensures l in AllLetters {
      LettersComplete(l);
    }
    AllLetters
  }

  /** `delete pending[letter]` */
  function Complete(pending: set<Letter>, l: Letter): (r: set<Letter>)
    ensures l !in r
    ensures forall k :: k != l ==> (k in r <==> k in pending)
  {
    pending - {l}
  }

  /** The feeds completing one after another. */
  function CompleteAll(pending: set<Letter>, ls: seq<Letter>): set<Letter>
    decreases |ls|
  {
    if ls == [] then pending else CompleteAll(Complete(pending, ls[0]), ls[1..])
  }

  /** After any run of completions, exactly the letters not completed are
      pending: only completed letters leave, and none ever comes back. */
  lemma {:induction false} CompleteAllRemovesExactly(pending: set<Letter>, ls: seq<Letter>, k: Letter)
    ensures k in CompleteAll(pending, ls) <==> k in pending && k !in ls
    decreases |ls|
  {
    if ls != [] {
      CompleteAllRemovesExactly(Complete(pending, ls[0]), ls[1..], k);
      assert k in ls <==> k == ls[0] || k in ls[1..];
    }
  }
}
