/** Removing one element of a sequence. */
module Sequences {
  function Without<T>(s: seq<T>, k: nat): seq<T>
    requires k < |s|
  {
    s[..k] + s[k + 1..]
  }

  lemma WithoutMultiset<T>(s: seq<T>, k: nat)
    requires k < |s|
    ensures multiset(s) == multiset(Without(s, k)) + multiset{s[k]}
  {
    assert s == s[..k] + [s[k]] + s[k + 1..];
  }

  /** s is obtained from t by deleting entries. */
  predicate Subsequence<T(==)>(s: seq<T>, t: seq<T>) {
    if s == [] then true
    else if t == [] then false
    else if s[0] == t[0] then Subsequence(s[1..], t[1..])
    else Subsequence(s, t[1..])
  }

  lemma {:induction false} SubsequenceRefl<T>(s: seq<T>)
    ensures Subsequence(s, s)
  {
    if s != [] { SubsequenceRefl(s[1..]); }
  }

  lemma {:induction false} SubsequenceTail<T>(s: seq<T>, t: seq<T>)
    requires s != [] && Subsequence(s, t)
    ensures Subsequence(s[1..], t)
  {
    if s[0] == t[0] {
      if s[1..] != [] {
        if s[1..][0] == t[0] { SubsequenceTail(s[1..], t[1..]); }
      }
    } else {
      SubsequenceTail(s, t[1..]);
      if s[1..] != [] && s[1..][0] == t[0] { SubsequenceTail(s[1..], t[1..]); }
    }
  }

  lemma {:induction false} SubsequenceTrans<T>(r: seq<T>, s: seq<T>, t: seq<T>)
    requires Subsequence(r, s) && Subsequence(s, t)
    ensures Subsequence(r, t)
    decreases |t|
  {
    if r != [] {
      if s[0] == t[0] {
        if r[0] == s[0] {
          SubsequenceTrans(r[1..], s[1..], t[1..]);
        } else {
          SubsequenceTrans(r, s[1..], t[1..]);
        }
      } else {
        SubsequenceTrans(r, s, t[1..]);
        if r[0] == t[0] { SubsequenceTail(r, t[1..]); }
      }
    }
  }

  lemma {:induction false} WithoutSubsequence<T>(s: seq<T>, k: nat)
    requires k < |s|
    ensures Subsequence(Without(s, k), s)
  {
    if k == 0 {
      assert Without(s, 0) == s[1..];
      SubsequenceRefl(s);
      SubsequenceTail(s, s);
    } else {
      WithoutSubsequence(s[1..], k - 1);
      assert Without(s, k)[1..] == Without(s[1..], k - 1);
    }
  }
}
