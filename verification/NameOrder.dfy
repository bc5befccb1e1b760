/** Lexicographic order, and stable sorting of named entries: `keys.sort()` of the canonical JSON writer
    and `sort_by` name of the attribute encoder. */
module NameOrder {

  predicate LexLe(a: seq<int>, b: seq<int>) {
    a == [] || (b != [] && (a[0] < b[0] || (a[0] == b[0] && LexLe(a[1..], b[1..]))))
  }

  lemma {:induction false} LexTotal(a: seq<int>, b: seq<int>)
    ensures LexLe(a, b) || LexLe(b, a)
    ensures LexLe(a, b) && LexLe(b, a) ==> a == b
  {
    if a != [] && b != [] {
      LexTotal(a[1..], b[1..]);
      assert a == [a[0]] + a[1..] && b == [b[0]] + b[1..];
    }
  }

  /** The first difference decides, and a proper beginning comes first. */
  lemma {:induction false} LexMeaning(a: seq<int>, b: seq<int>, i: nat)
    requires i <= |a| && i <= |b| && a[..i] == b[..i]
    requires i < |a| && i < |b| ==> a[i] != b[i]
    ensures LexLe(a, b) <==> i == |a| || (i < |b| && a[i] < b[i])
  {
    if i > 0 {
      assert a[0] == a[..i][0] && b[0] == b[..i][0];
      assert a[1..][..i - 1] == a[..i][1..] && b[1..][..i - 1] == b[..i][1..];
      LexMeaning(a[1..], b[1..], i - 1);
    }
  }

  lemma {:induction false} LexTransitive(a: seq<int>, b: seq<int>, c: seq<int>)
    requires LexLe(a, b) && LexLe(b, c)
    ensures LexLe(a, c)
  {
    if a != [] && a[0] == b[0] == c[0] { LexTransitive(a[1..], b[1..], c[1..]); }
  }

  function Codes(s: string): (r: seq<int>)
    ensures |r| == |s|
    ensures forall i :: 0 <= i < |s| ==> r[i] == s[i] as int
  {
    seq(|s|, i requires 0 <= i < |s| => s[i] as int)
  }

  /** `str` order: by code point, which for UTF-8 is also by byte. */
  predicate NameLe(a: string, b: string) {
    LexLe(Codes(a), Codes(b))
  }

  lemma NameTotal(a: string, b: string)
    ensures NameLe(a, b) || NameLe(b, a)
    ensures NameLe(a, b) && NameLe(b, a) ==> a == b
  {
    LexTotal(Codes(a), Codes(b));
    if Codes(a) == Codes(b) {
      forall i | 0 <= i < |a| ensures a[i] == b[i] {
        assert Codes(a)[i] == Codes(b)[i];
      }
    }
  }

  lemma NameTransitive(a: string, b: string, c: string)
    requires NameLe(a, b) && NameLe(b, c)
    ensures NameLe(a, c)
  {
    LexTransitive(Codes(a), Codes(b), Codes(c));
  }

  datatype Entry<+V> = Entry(name: string, value: V)

  /** Insert before the first entry that is not smaller. */
  function Insert<V>(e: Entry<V>, s: seq<Entry<V>>): (r: seq<Entry<V>>)
    ensures |r| == |s| + 1
  {
    if s == [] then [e]
    else if NameLe(e.name, s[0].name) then [e] + s
    else [s[0]] + Insert(e, s[1..])
  }

  /** Stable insertion sort by name. */
  function Sort<V>(s: seq<Entry<V>>): (r: seq<Entry<V>>)
    ensures |r| == |s|
  {
    if s == [] then [] else Insert(s[0], Sort(s[1..]))
  }

  ghost predicate Sorted<V>(s: seq<Entry<V>>) {
    forall i, j :: 0 <= i < j < |s| ==> NameLe(s[i].name, s[j].name)
  }

  lemma {:induction false} InsertPermutes<V>(e: Entry<V>, s: seq<Entry<V>>)
    ensures multiset(Insert(e, s)) == multiset(s) + multiset{e}
  {
    if s != [] && !NameLe(e.name, s[0].name) {
      InsertPermutes(e, s[1..]);
      assert s == [s[0]] + s[1..];
    }
  }

  lemma {:induction false} SortPermutes<V>(s: seq<Entry<V>>)
    ensures multiset(Sort(s)) == multiset(s)
  {
    if s != [] {
      SortPermutes(s[1..]);
      InsertPermutes(s[0], Sort(s[1..]));
      assert s == [s[0]] + s[1..];
    }
  }

  lemma InSame<V>(s: seq<Entry<V>>, t: seq<Entry<V>>, e: Entry<V>)
    requires multiset(s) == multiset(t)
    ensures e in s <==> e in t
  {
    assert e in s <==> e in multiset(s);
    assert e in t <==> e in multiset(t);
  }

  lemma SortedCons<V>(e: Entry<V>, s: seq<Entry<V>>)
    requires Sorted(s) && forall x :: x in s ==> NameLe(e.name, x.name)
    ensures Sorted([e] + s)
  {
  }

  lemma {:induction false} InsertSorted<V>(e: Entry<V>, s: seq<Entry<V>>)
    requires Sorted(s)
    ensures Sorted(Insert(e, s))
  {
    if s == [] {
    } else if NameLe(e.name, s[0].name) {
      forall x | x in s ensures NameLe(e.name, x.name) {
        var i :| 0 <= i < |s| && s[i] == x;
        if i > 0 { NameTransitive(e.name, s[0].name, x.name); }
      }
      SortedCons(e, s);
    } else {
      InsertSorted(e, s[1..]);
      NameTotal(e.name, s[0].name);
      var r := Insert(e, s[1..]);
      InsertPermutes(e, s[1..]);
      forall x | x in r ensures NameLe(s[0].name, x.name) {
        assert x in multiset(r);
        assert x in s[1..] || x == e;
      }
      SortedCons(s[0], r);
    }
  }

  lemma {:induction false} SortSorted<V>(s: seq<Entry<V>>)
    ensures Sorted(Sort(s))
  {
    if s != [] {
      SortSorted(s[1..]);
      InsertSorted(s[0], Sort(s[1..]));
    }
  }

  /** A sorted list is left as it is. */
  lemma {:induction false} SortFixesSorted<V>(s: seq<Entry<V>>)
    requires Sorted(s)
    ensures Sort(s) == s
  {
    if s != [] {
      SortFixesSorted(s[1..]);
      assert |s| > 1 ==> NameLe(s[0].name, s[1].name);
    }
  }

  /** Entries with the same name are the same entry. */
  ghost predicate Consistent<V>(s: seq<Entry<V>>) {
    forall i, j :: 0 <= i < |s| && 0 <= j < |s| && s[i].name == s[j].name ==> s[i] == s[j]
  }

  lemma HeadOfSorted<V>(s: seq<Entry<V>>, t: seq<Entry<V>>)
    requires Sorted(s) && Sorted(t) && Consistent(s) && multiset(s) == multiset(t) && s != [] && t != []
    ensures s[0] == t[0]
  {
    InSame(s, t, t[0]);
    InSame(s, t, s[0]);
    var i :| 0 <= i < |s| && s[i] == t[0];
    var j :| 0 <= j < |t| && t[j] == s[0];
    NameTotal(s[0].name, t[0].name);
  }

  /** Sorted lists of the same entries, of which equally named ones agree, are equal. */
  lemma {:induction false} SortedUnique<V>(s: seq<Entry<V>>, t: seq<Entry<V>>)
    requires Sorted(s) && Sorted(t) && Consistent(s) && multiset(s) == multiset(t)
    ensures s == t
  {
    assert |s| == |multiset(s)| == |multiset(t)| == |t|;
    if s != [] {
      HeadOfSorted(s, t);
      TailMultiset(s);
      TailMultiset(t);
      SortedUnique(s[1..], t[1..]);
      assert s == [s[0]] + s[1..] && t == [t[0]] + t[1..];
    }
  }

  lemma TailMultiset<V>(s: seq<V>)
    requires s != []
    ensures multiset(s[1..]) == multiset(s) - multiset{s[0]}
  {
    assert s == [s[0]] + s[1..];
  }

  lemma ConsistentPermutation<V>(s: seq<Entry<V>>, t: seq<Entry<V>>)
    requires Consistent(s) && multiset(s) == multiset(t)
    ensures Consistent(t)
  {
    forall i, j | 0 <= i < |t| && 0 <= j < |t| && t[i].name == t[j].name
      ensures t[i] == t[j]
    {
      InSame(s, t, t[i]);
      InSame(s, t, t[j]);
      var a :| 0 <= a < |s| && s[a] == t[i];
      var b :| 0 <= b < |s| && s[b] == t[j];
    }
  }

  /** Sorting forgets the original order of consistent entries. */
  lemma SortForgetsOrder<V>(s: seq<Entry<V>>, t: seq<Entry<V>>)
    requires Consistent(s) && multiset(s) == multiset(t)
    ensures Sort(s) == Sort(t)
  {
    SortPermutes(s);
    SortPermutes(t);
    SortSorted(s);
    SortSorted(t);
    ConsistentPermutation(s, Sort(s));
    SortedUnique(Sort(s), Sort(t));
  }
}
