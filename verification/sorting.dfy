/** Ordering sequences by a string key, as the listing's std::sort calls do
    with `a.name < b.name`. The model sorts by insertion, which is stable;
    std::sort is not, and the two can differ only in the relative order of
    elements with equal keys. */
module Sorting {
  import opened Text

  /** The keys of the elements, in order. */
  function Keys<T>(key: T -> string, s: seq<T>): (r: seq<string>)
    ensures |r| == |s|
  {
    if s == [] then [] else [key(s[0])] + Keys(key, s[1..])
  }

  lemma {:induction false} KeysIndex<T>(key: T -> string, s: seq<T>, i: nat)
    requires i < |s|
    ensures Keys(key, s)[i] == key(s[i])
    decreases |s|
  {
    if i > 0 {
      KeysIndex(key, s[1..], i - 1);
    }
  }

  lemma {:induction false} KeysAppend<T>(key: T -> string, s: seq<T>, t: seq<T>)
    ensures Keys(key, s + t) == Keys(key, s) + Keys(key, t)
    decreases |s|
  {
    if s == [] {
      assert s + t == t;
    } else {
      assert (s + t)[1..] == s[1..] + t;
      KeysAppend(key, s[1..], t);
    }
  }

  /** Nondecreasing in std::string order. */
  predicate SortedStrings(ss: seq<string>) {
    forall i, j | 0 <= i < j < |ss| :: LessEq(ss[i], ss[j])
  }

  predicate SortedBy<T>(key: T -> string, s: seq<T>) {
    SortedStrings(Keys(key, s))
  }

  /** `k` is at or below every string of `ss`. */
  predicate LowerBound(k: string, ss: seq<string>) {
    forall y | y in ss :: LessEq(k, y)
  }

  lemma SortedCons(k: string, ss: seq<string>)
    ensures SortedStrings([k] + ss) <==> LowerBound(k, ss) && SortedStrings(ss)
  {
    var t := [k] + ss;
    if LowerBound(k, ss) && SortedStrings(ss) {
      forall i, j | 0 <= i < j < |t| ensures LessEq(t[i], t[j]) {
        if i == 0 {
          assert t[j] == ss[j - 1];
          assert t[j] in ss;
        } else {
          assert t[i] == ss[i - 1] && t[j] == ss[j - 1];
        }
      }
    }
    if SortedStrings(t) {
      forall y | y in ss ensures LessEq(k, y) {
        var j :| 0 <= j < |ss| && ss[j] == y;
        assert t[0] == k && t[j + 1] == y;
      }
      forall i, j | 0 <= i < j < |ss| ensures LessEq(ss[i], ss[j]) {
        assert t[i + 1] == ss[i] && t[j + 1] == ss[j];
      }
    }
  }

  /** Insert `x` before the first element whose key is not below its own. */
  function Insert<T>(key: T -> string, x: T, s: seq<T>): (r: seq<T>)
    ensures |r| == |s| + 1
    ensures multiset(r) == multiset(s) + multiset{x}
    ensures multiset(Keys(key, r)) == multiset(Keys(key, s)) + multiset{key(x)}
  {
    if s == [] then [x]
    else if LessEq(key(x), key(s[0])) then [x] + s
    else
      assert s == [s[0]] + s[1..];
      [s[0]] + Insert(key, x, s[1..])
  }

  /** Inserting into a sorted sequence keeps it sorted. */
  lemma {:induction false} InsertSorted<T>(key: T -> string, x: T, s: seq<T>)
    requires SortedBy(key, s)
    ensures SortedBy(key, Insert(key, x, s))
    decreases |s|
  {
    if s == [] {
      assert Keys(key, [x]) == [key(x)];
    } else if LessEq(key(x), key(s[0])) {
      assert s == [s[0]] + s[1..];
      SortedCons(key(s[0]), Keys(key, s[1..]));
      forall y | y in Keys(key, s) ensures LessEq(key(x), y) {
        if y != key(s[0]) {
          assert y in Keys(key, s[1..]);
          LessEqTransitive(key(x), key(s[0]), y);
        }
      }
      SortedCons(key(x), Keys(key, s));
    } else {
      var rest := Insert(key, x, s[1..]);
      assert s == [s[0]] + s[1..];
      SortedCons(key(s[0]), Keys(key, s[1..]));
      InsertSorted(key, x, s[1..]);
      LessTotal(key(x), key(s[0]));
      forall y | y in Keys(key, rest) ensures LessEq(key(s[0]), y) {
        assert y in multiset(Keys(key, rest));
      }
      SortedCons(key(s[0]), Keys(key, rest));
    }
  }

  /** Insertion sort by key: a permutation of `s` in nondecreasing key order. */
  function Sort<T>(key: T -> string, s: seq<T>): (r: seq<T>)
    ensures |r| == |s|
    ensures multiset(r) == multiset(s)
    ensures multiset(Keys(key, r)) == multiset(Keys(key, s))
    ensures SortedBy(key, r)
  {
    if s == [] then []
    else
      assert s == [s[0]] + s[1..];
      InsertSorted(key, s[0], Sort(key, s[1..]));
      Insert(key, s[0], Sort(key, s[1..]))
  }

  /** Two nondecreasing sequences of strings with the same elements are equal:
      sorting a multiset of strings has exactly one outcome. */
  lemma {:induction false} SortedUnique(x: seq<string>, y: seq<string>)
    requires SortedStrings(x) && SortedStrings(y)
    requires multiset(x) == multiset(y)
    ensures x == y
    decreases |x|
  {
    if x != [] {
      assert x[0] in multiset(y);
      assert y != [];
      assert y[0] in multiset(x);
      SortedCons(x[0], x[1..]);
      SortedCons(y[0], y[1..]);
      assert x == [x[0]] + x[1..] && y == [y[0]] + y[1..];
      if x[0] != y[0] {
        assert y[0] in x[1..];
        assert x[0] in y[1..];
      }
      LessEqAntisymmetric(x[0], y[0]);
      assert multiset(x) == multiset{x[0]} + multiset(x[1..]);
      assert multiset(y) == multiset{y[0]} + multiset(y[1..]);
      assert multiset(x[1..]) == multiset(x) - multiset{x[0]};
      assert multiset(y[1..]) == multiset(y) - multiset{y[0]};
      SortedUnique(x[1..], y[1..]);
    } else {
      assert |multiset(y)| == 0;
    }
  }

  lemma {:induction false} KeysSplitAt<T>(key: T -> string, t: seq<T>, i: nat)
    requires i < |t|
    ensures Keys(key, t) == Keys(key, t[..i]) + [key(t[i])] + Keys(key, t[i + 1..])
    decreases i
  {
    if i > 0 {
      KeysSplitAt(key, t[1..], i - 1);
      assert t[1..][..i - 1] == t[..i][1..];
      assert t[1..][i..] == t[i + 1..];
    }
  }

  /** Taking one element out takes its key out of the keys. */
  lemma KeysRemove<T>(key: T -> string, t: seq<T>, i: nat)
    requires i < |t|
    ensures multiset(Keys(key, t)) == multiset(Keys(key, t[..i] + t[i + 1..])) + multiset{key(t[i])}
  {
    KeysSplitAt(key, t, i);
    KeysAppend(key, t[..i], t[i + 1..]);
    var ka, kb := Keys(key, t[..i]), Keys(key, t[i + 1..]);
    assert multiset(ka + [key(t[i])] + kb) == multiset(ka) + multiset{key(t[i])} + multiset(kb);
  }

  /** Taking one element out of a sequence takes it out of its multiset. */
  lemma MultisetRemove<T>(t: seq<T>, i: nat)
    requires i < |t|
    ensures multiset(t[..i] + t[i + 1..]) == multiset(t) - multiset{t[i]}
  {
    var a, b := t[..i], t[i + 1..];
    assert t == a + [t[i]] + b;
    assert multiset(t) == multiset(a) + multiset{t[i]} + multiset(b);
  }

  /** Elements with the same multiset have the same multiset of keys. */
  lemma {:induction false} KeysOfPermutation<T>(key: T -> string, s: seq<T>, t: seq<T>)
    requires multiset(s) == multiset(t)
    ensures multiset(Keys(key, s)) == multiset(Keys(key, t))
    decreases |s|
  {
    if s == [] {
      assert |multiset(t)| == 0;
    } else {
      assert s[0] in multiset(t);
      var i :| 0 <= i < |t| && t[i] == s[0];
      var rest := t[..i] + t[i + 1..];
      MultisetRemove(t, i);
      HeadRemoved(s);
      KeysOfPermutation(key, s[1..], rest);
      KeysRemove(key, t, i);
    }
  }

  lemma HeadRemoved<T>(s: seq<T>)
    requires |s| >= 1
    ensures multiset(s[1..]) == multiset(s) - multiset{s[0]}
  {
    assert s == [s[0]] + s[1..];
  }

}
