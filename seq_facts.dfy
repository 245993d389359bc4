/** Small facts about sequences, proved once over a type parameter. */
module SeqFacts {

  lemma ConcatAssoc<T>(a: seq<T>, b: seq<T>, c: seq<T>)
    ensures a + b + c == a + (b + c)
  {
  }

  lemma TakeOfAppend<T>(a: seq<T>, b: seq<T>)
    ensures (a + b)[..|a|] == a
  {
  }

  lemma TakeTake<T>(s: seq<T>, i: nat)
    requires i < |s|
    ensures s[..i + 1][..i] == s[..i]
  {
  }

  lemma SplitLast<T>(s: seq<T>)
    requires s != []
    ensures s == s[..|s| - 1] + [s[|s| - 1]]
  {
  }

  lemma ExtendPrefix<T>(a: seq<T>, b: seq<T>, x: T)
    requires |a| <= |b| && b[..|a|] == a
    ensures (b + [x])[..|a|] == a && (b + [x])[|b|] == x
  {
    assert (b + [x])[..|a|] == b[..|a|];
  }
}
