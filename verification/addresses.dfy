/** Resource addresses are Go strings. This module gives the order Go's `<` and
    `sort.Strings` put on them, and the sorted, duplicate-free list that
    `canonicalAddresses` and `sortedUniqueStrings` both compute. */
module Addresses {

  /** Go's `<` on strings: the first differing character decides, and a proper prefix is smaller. */
  predicate Less(a: string, b: string)
    decreases |a|
  {
    if b == [] then false
    else if a == [] then true
    else a[0] < b[0] || (a[0] == b[0] && Less(a[1..], b[1..]))
  }

  lemma {:induction false} LessTrans(a: string, b: string, c: string)
    requires Less(a, b) && Less(b, c)
    ensures Less(a, c)
    decreases |a|
  {
    if a != [] && a[0] == b[0] && b[0] == c[0] {
      LessTrans(a[1..], b[1..], c[1..]);
    }
  }

  lemma {:induction false} LessTrichotomy(a: string, b: string)
    ensures a == b || Less(a, b) || Less(b, a)
    ensures !(Less(a, b) && Less(b, a))
    ensures a == b ==> !Less(a, b)
    decreases |a|
  {
    if a == [] || b == [] {
    } else if a[0] == b[0] {
      LessTrichotomy(a[1..], b[1..]);
      assert a == [a[0]] + a[1..] && b == [b[0]] + b[1..];
    }
  }

  /** The address of a component on a host. */
  function Root(host: string, name: string): string
  {
    "host." + host + ".component." + name
  }

  lemma RootInjective(host: string, a: string, b: string)
    requires Root(host, a) == Root(host, b)
    ensures a == b
  {
    var prefix := "host." + host + ".component.";
    assert (prefix + a)[|prefix|..] == a && (prefix + b)[|prefix|..] == b;
  }

  ghost predicate Transitive<T(!new)>(before: (T, T) -> bool)
  {
    forall a, b, c :: before(a, b) && before(b, c) ==> before(a, c)
  }

  ghost predicate SortedBy<T>(before: (T, T) -> bool, s: seq<T>)
  {
    forall i, j :: 0 <= i < j < |s| ==> before(s[i], s[j])
  }

  /** The step of every insertion sort here: an element that fits between its neighbours fits into the list. */
  lemma InsertBetween<T(!new)>(before: (T, T) -> bool, s: seq<T>, at: nat, k: T)
    requires Transitive(before) && SortedBy(before, s) && at <= |s|
    requires at == 0 || before(s[at - 1], k)
    requires at == |s| || before(k, s[at])
    ensures SortedBy(before, s[..at] + [k] + s[at..])
  {
    var t := s[..at] + [k] + s[at..];
    assert forall i :: 0 <= i < |t| ==> t[i] == if i < at then s[i] else if i == at then k else s[i - 1];
    forall i | 0 <= i < at ensures before(s[i], k) {
      if i < at - 1 { assert before(s[i], s[at - 1]); }
    }
    forall i | at <= i < |s| ensures before(k, s[i]) {
      if at < i { assert before(s[at], s[i]); }
    }
  }

  lemma LessIsTransitive()
    ensures Transitive(Less)
  {
    forall a: string, b: string, c: string | Less(a, b) && Less(b, c) ensures Less(a, c) {
      LessTrans(a, b, c);
    }
  }

  lemma NotLessTrans(a: string, b: string, c: string)
    requires !Less(b, a) && !Less(c, b)
    ensures !Less(c, a)
  {
    LessTrichotomy(a, b);
    LessTrichotomy(b, c);
    LessTrichotomy(a, c);
    if Less(a, b) && Less(b, c) { LessTrans(a, b, c); }
  }

  predicate StrictlySorted(s: seq<string>)
  {
    forall i, j :: 0 <= i < j < |s| ==> Less(s[i], s[j])
  }

  predicate Distinct<T(==)>(s: seq<T>)
  {
    forall i, j :: 0 <= i < j < |s| ==> s[i] != s[j]
  }

  ghost function Elements<T>(s: seq<T>): set<T>
  {
    set x | x in s
  }

  lemma {:induction false} CountsDistinct<T>(s: seq<T>, x: T)
    requires Distinct(s)
    ensures multiset(s)[x] <= 1
  {
    if s != [] {
      var n := |s| - 1;
      assert s == s[..n] + [s[n]];
      CountsDistinct(s[..n], x);
      if s[n] == x {
        assert x !in s[..n];
        assert x in multiset(s[..n]) <==> x in s[..n];
      }
    }
  }

  lemma TwiceCounted<T>(s: seq<T>, i: nat, j: nat)
    requires i < j < |s| && s[i] == s[j]
    ensures multiset(s)[s[i]] >= 2
  {
    assert s == s[..j] + [s[j]] + s[j + 1..];
    assert s[i] == s[..j][i] && s[i] in s[..j];
    assert s[i] in multiset(s[..j]);
  }

  lemma DistinctPermutes<T>(s: seq<T>, t: seq<T>)
    requires Distinct(s) && multiset(s) == multiset(t)
    ensures Distinct(t)
  {
    forall i, j | 0 <= i < j < |t| ensures t[i] != t[j] {
      CountsDistinct(s, t[i]);
      if t[i] == t[j] { TwiceCounted(t, i, j); }
    }
  }

  lemma TakeNext<T>(s: seq<T>, i: nat)
    requires i < |s|
    ensures s[..i + 1] == s[..i] + [s[i]]
    ensures forall x :: x in s[..i + 1] <==> x in s[..i] || x == s[i]
  {
    assert s[..i + 1] == s[..i] + [s[i]];
  }

  lemma DropNext<T>(s: seq<T>, i: nat)
    requires i < |s|
    ensures s[i..][0] == s[i] && s[i..][1..] == s[i + 1..]
  {
  }

  lemma DropAll<T>(s: seq<T>)
    ensures s[|s|..] == []
  {
  }

  lemma InsertAt<T>(s: seq<T>, at: nat, k: T)
    requires at <= |s|
    ensures forall x :: x in s[..at] + [k] + s[at..] <==> x in s || x == k
    ensures Distinct(s) && k !in s ==> Distinct(s[..at] + [k] + s[at..])
  {
    var t := s[..at] + [k] + s[at..];
    assert s == s[..at] + s[at..];
    forall x ensures x in t <==> x in s || x == k {
      assert x in t <==> x in s[..at] || x == k || x in s[at..];
    }
    forall i, j | Distinct(s) && k !in s && 0 <= i < j < |t| ensures t[i] != t[j] {
      assert t[i] == if i < at then s[i] else if i == at then k else s[i - 1];
      assert t[j] == if j < at then s[j] else if j == at then k else s[j - 1];
    }
  }

  lemma PushFacts(s: seq<string>, x: string)
    ensures forall v :: v in s + [x] <==> v in s || v == x
    ensures Elements(s + [x]) == Elements(s) + {x}
    ensures Distinct(s) && x !in s ==> Distinct(s + [x])
  {
  }

  lemma SmallerSet(a: set<string>, b: set<string>)
    requires a < b
    ensures |a| < |b|
  {
    var x :| x in b && x !in a;
    SubsetSize(a, b - {x});
  }

  lemma {:induction false} SubsetSize(a: set<string>, b: set<string>)
    requires a <= b
    ensures |a| <= |b|
    decreases |a|
  {
    if x :| x in a {
      SubsetSize(a - {x}, b - {x});
    }
  }

  lemma StrictlySortedIsDistinct(s: seq<string>)
    requires StrictlySorted(s)
    ensures Distinct(s)
  {
    forall i, j | 0 <= i < j < |s| ensures s[i] != s[j] {
      LessTrichotomy(s[i], s[j]);
    }
  }

  ghost predicate IsMin(m: string, s: set<string>)
  {
    m in s && forall x :: x in s ==> x == m || Less(m, x)
  }

  lemma {:induction false} MinExists(s: set<string>) returns (m: string)
    requires s != {}
    ensures IsMin(m, s)
    decreases |s|
  {
    var a :| a in s;
    if s == {a} {
      m := a;
    } else {
      var n := MinExists(s - {a});
      LessTrichotomy(a, n);
      m := if Less(a, n) then a else n;
      forall x | x in s ensures x == m || Less(m, x) {
        if Less(a, n) && x != a && x != n {
          LessTrans(a, n, x);
        }
      }
    }
  }

  /** The one strictly sorted list of a set's elements. */
  ghost function SortedSeq(s: set<string>): (r: seq<string>)
    ensures StrictlySorted(r)
    ensures Elements(r) == s
    decreases |s|
  {
    if s == {} then []
    else
      var m0 := MinOf(s);
      var tail := SortedSeq(s - {m0});
      assert forall i :: 0 <= i < |tail| ==> tail[i] in s - {m0};
      assert forall x :: x in s <==> x == m0 || x in tail by {
        assert forall x :: x in tail <==> x in Elements(tail);
      }
      [m0] + tail
  }

  lemma SortedSeqMembers(keys: set<string>)
    ensures forall k :: k in SortedSeq(keys) <==> k in keys
  {
    assert forall k :: k in SortedSeq(keys) <==> k in Elements(SortedSeq(keys));
  }

  ghost function MinOf(s: set<string>): (m: string)
    requires s != {}
    ensures IsMin(m, s)
  {
    assert exists m :: IsMin(m, s) by { var m := MinExists(s); }
    var m :| IsMin(m, s);
    m
  }

  lemma {:induction false} SortedUnique(s: seq<string>, t: seq<string>)
    requires StrictlySorted(s) && StrictlySorted(t)
    requires Elements(s) == Elements(t)
    ensures s == t
    decreases |s|
  {
    assert forall x :: x in s <==> x in Elements(s);
    assert forall x :: x in t <==> x in Elements(t);
    StrictlySortedIsDistinct(s);
    StrictlySortedIsDistinct(t);
    assert |s| > 0 ==> s[0] in Elements(s);
    assert |t| > 0 ==> t[0] in Elements(t);
    if s != [] {
      assert s[0] in t;
      assert t[0] in s;
      LessTrichotomy(s[0], t[0]);
      assert s[0] == t[0];
      forall x ensures x in s[1..] <==> x in t[1..] {
        assert x in s[1..] <==> x in s && x != s[0];
        assert x in t[1..] <==> x in t && x != t[0];
      }
      SortedUnique(s[1..], t[1..]);
    }
  }

  /** `sort.Strings` restricted to lists without repetitions: the keys collected from a Go map. */
  method SortedKeys(keys: set<string>) returns (r: seq<string>)
    ensures r == SortedSeq(keys)
  {
    r := [];
    var rest := keys;
    while rest != {}
      invariant rest <= keys
      invariant StrictlySorted(r)
      invariant Elements(r) == keys - rest
      decreases |rest|
    {
      var k :| k in rest;
      assert k !in Elements(r);
      var at := 0;
      while at < |r| && Less(r[at], k)
        invariant 0 <= at <= |r|
        invariant forall i :: 0 <= i < at ==> Less(r[i], k)
      {
        at := at + 1;
      }
      ghost var was := r;
      r := r[..at] + [k] + r[at..];
      InsertSorted(was, at, k);
      rest := rest - {k};
    }
    SortedUnique(r, SortedSeq(keys));
  }

  lemma InsertSorted(s: seq<string>, at: nat, k: string)
    requires StrictlySorted(s) && k !in s && at <= |s|
    requires forall i :: 0 <= i < at ==> Less(s[i], k)
    requires at == |s| || !Less(s[at], k)
    ensures StrictlySorted(s[..at] + [k] + s[at..])
    ensures Elements(s[..at] + [k] + s[at..]) == Elements(s) + {k}
  {
    if at < |s| {
      LessTrichotomy(k, s[at]);
      assert s[at] in s;
    }
    LessIsTransitive();
    InsertBetween(Less, s, at, k);
    InsertAt(s, at, k);
  }

  /** What `canonicalAddresses` and `sortedUniqueStrings` return. */
  ghost function Canonical(addresses: seq<string>): seq<string>
  {
    SortedSeq(Elements(addresses))
  }

  lemma CanonicalMembers(addresses: seq<string>)
    ensures forall a :: a in Canonical(addresses) <==> a in addresses
  {
    assert forall a :: a in Canonical(addresses) <==> a in Elements(Canonical(addresses));
    assert forall a :: a in addresses <==> a in Elements(addresses);
  }

  /** `canonicalAddresses`: sort a copy, then keep each element that differs from the last kept one.
      Sorting is insertion by `Less`, so equal addresses stay adjacent. */
  method CanonicalAddresses(addresses: seq<string>) returns (unique: seq<string>)
    ensures unique == Canonical(addresses)
  {
    hide Less;
    var canonical := SortStrings(addresses);
    unique := [];
    for i := 0 to |canonical|
      invariant StrictlySorted(unique)
      invariant Elements(unique) == Elements(canonical[..i])
      invariant i == 0 ==> unique == []
      invariant i > 0 ==> unique != [] && unique[|unique| - 1] == canonical[i - 1]
    {
      TakeNext(canonical, i);
      PushFacts(canonical[..i], canonical[i]);
      PushFacts(unique, canonical[i]);
      if |unique| == 0 || unique[|unique| - 1] != canonical[i] {
        if i > 0 {
          assert !Less(canonical[i], canonical[i - 1]);
          AppendLarger(unique, canonical[i]);
        }
        unique := unique + [canonical[i]];
      } else {
        assert unique[|unique| - 1] in Elements(unique);
      }
    }
    assert canonical[..|canonical|] == canonical;
    SameMultisetSameElements(canonical, addresses);
    SortedUnique(unique, Canonical(addresses));
  }

  lemma AppendLarger(s: seq<string>, k: string)
    requires StrictlySorted(s) && s != []
    requires s[|s| - 1] != k && !Less(k, s[|s| - 1])
    ensures StrictlySorted(s + [k])
  {
    LessTrichotomy(s[|s| - 1], k);
    forall j | 0 <= j < |s| ensures Less(s[j], k) {
      if j < |s| - 1 { LessTrans(s[j], s[|s| - 1], k); }
    }
  }

  lemma SameMultisetSameElements(s: seq<string>, t: seq<string>)
    requires multiset(s) == multiset(t)
    ensures Elements(s) == Elements(t)
  {
    assert forall x :: x in s <==> x in multiset(s);
    assert forall x :: x in t <==> x in multiset(t);
  }

  predicate Sorted(s: seq<string>)
  {
    forall i, j :: 0 <= i < j < |s| ==> !Less(s[j], s[i])
  }

  /** `sort.Strings`. */
  method SortStrings(values: seq<string>) returns (r: seq<string>)
    ensures Sorted(r)
    ensures multiset(r) == multiset(values)
  {
    hide Less;
    forall a, b, c | !Less(b, a) && !Less(c, b) ensures !Less(c, a) {
      NotLessTrans(a, b, c);
    }
    forall a, b | Less(a, b) ensures !Less(b, a) {
      LessTrichotomy(a, b);
    }
    r := StableSort((a, b) => Less(a, b), values);
  }

  /** `sort.SliceStable`, by insertion. */
  method StableSort<T(!new)>(before: (T, T) -> bool, values: seq<T>) returns (r: seq<T>)
    requires Transitive((a, b) => !before(b, a)) && forall a, b :: before(a, b) ==> !before(b, a)
    ensures forall i, j :: 0 <= i < j < |r| ==> !before(r[j], r[i])
    ensures multiset(r) == multiset(values)
  {
    ghost var notAfter := (a, b) => !before(b, a);
    r := [];
    for n := 0 to |values|
      invariant SortedBy(notAfter, r)
      invariant multiset(r) == multiset(values[..n])
    {
      var at := |r|;
      while at > 0 && before(values[n], r[at - 1])
        invariant 0 <= at <= |r|
        invariant forall i :: at <= i < |r| ==> before(values[n], r[i])
      {
        at := at - 1;
      }
      InsertBetween(notAfter, r, at, values[n]);
      InsertCounts(r, at, values, n);
      r := r[..at] + [values[n]] + r[at..];
    }
    assert values[..|values|] == values;
  }

  lemma InsertCounts<T>(r: seq<T>, at: nat, values: seq<T>, n: nat)
    requires at <= |r| && n < |values| && multiset(r) == multiset(values[..n])
    ensures multiset(r[..at] + [values[n]] + r[at..]) == multiset(values[..n + 1])
  {
    assert values[..n + 1] == values[..n] + [values[n]];
    assert r == r[..at] + r[at..];
  }
}
