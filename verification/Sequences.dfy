/** Facts about sequences that several loops need. */
module Sequences {
  /** One element moved from what is ahead to what is done. */
  lemma Regroup<T>(done: seq<T>, x: T, ahead: seq<T>)
    ensures done + ([x] + ahead) == done + [x] + ahead
  {
  }
}
