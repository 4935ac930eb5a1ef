// Sequences without repetition, their elements, and parts of sequences.

module Sequences {
  ghost predicate NoRepeat<T>(s: seq<T>) {
    forall i, j :: 0 <= i < j < |s| ==> s[i] != s[j]
  }

  ghost function Elements<T>(s: seq<T>): set<T> {
    set x | x in s
  }

  lemma SeqAssoc<T>(a: seq<T>, b: seq<T>, c: seq<T>)
    ensures (a + b) + c == a + (b + c)
  {
  }

  lemma Adjacent<T>(s: seq<T>, a: nat, b: nat, c: nat)
    requires a <= b <= c <= |s|
    ensures s[a..b] + s[b..c] == s[a..c]
  {
  }

  lemma SlicePrefix<T>(s: seq<T>, a: nat, b: nat, c: nat)
    requires a <= b <= c <= |s|
    ensures s[..c][a..b] == s[a..b]
  {
  }

  lemma SliceSlice<T>(s: seq<T>, a: nat, n: nat, o: nat, d: nat)
    requires a + n <= |s| && o + d <= n
    ensures s[a..a + n][o..o + d] == s[a + o..a + o + d]
  {
    var x, y := s[a..a + n][o..o + d], s[a + o..a + o + d];
    forall i | 0 <= i < d
      ensures x[i] == y[i]
    {
    }
  }
}
