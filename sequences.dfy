/** Small facts about sequences shared by the loop proofs. */
module Sequences {
  /** Concatenation regroups freely; stated once so that each loop step
      can name the regrouping it needs. */
  lemma AppendAssoc<T>(a: seq<T>, b: seq<T>, c: seq<T>)
    ensures a + b + c == a + (b + c)
  {
  }

  /** A non-empty sequence holds its first element. */
  lemma HeadIn<T>(s: seq<T>)
    ensures s != [] ==> s[0] in s
  {
  }
}
