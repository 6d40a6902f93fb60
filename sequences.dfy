/** Small facts about sequence concatenation shared by the modules that build
    command lists and receipt text. */
module Sequences {

  /** The ways the formatter and the job controller regroup four pieces. */
  lemma Regroup<T>(a: seq<T>, b: seq<T>, c: seq<T>, d: seq<T>)
    ensures (a + b) + (c + d) == a + (b + c) + d
    ensures a + b + c + d == a + (b + c + d)
  {
  }

  /** The elements of a concatenation up to the end of its front part are
      those of the front part. */
  lemma IndexInFront<T>(front: seq<T>, back: seq<T>, n: nat)
    requires n <= |front|
    ensures (front + back)[..n] == front[..n]
    ensures forall k :: 0 <= k < n ==> (front + back)[k] == front[k]
  {
  }

  /** What follows the front part of a concatenation is its back part. */
  lemma SuffixOfAppend<T>(front: seq<T>, back: seq<T>)
    ensures (front + back)[|front|..] == back
  {
  }
}
