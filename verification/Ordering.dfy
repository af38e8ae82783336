/**
 The orders and the library sort that the cluster code relies on: Rust's byte order on
 strings, its derived order on (topic, partition) pairs, and `sort`.
 A sequence with no repeats has exactly one sorted arrangement, so nothing proved here
 depends on which sorting algorithm the standard library uses.
 */
module Ordering {

  datatype Option<+T> = None | Some(value: T)

  type Partition = (string, nat)

  /** An unsigned number as `format!` prints it. */
  function Decimal(n: nat): string {
    if n < 10 then ["0123456789"[n]] else Decimal(n / 10) + ["0123456789"[n % 10]]
  }

  /** The number that a string of digits denotes. */
  function ValueOf(digits: string): int {
    if digits == [] then 0 else ValueOf(digits[..|digits| - 1]) * 10 + (digits[|digits| - 1] as int - '0' as int)
  }

  predicate IsDigit(c: char) { '0' <= c <= '9' }

  lemma DigitOf(k: nat)
    requires k < 10
    ensures IsDigit("0123456789"[k]) && "0123456789"[k] as int - '0' as int == k
  {
  }

  /** What is printed is digits, and reads back as the number. */
  lemma {:induction false} DecimalReads(n: nat)
    ensures Decimal(n) != [] && (forall c :: c in Decimal(n) ==> IsDigit(c)) && ValueOf(Decimal(n)) == n
  {
    if n < 10 {
      DigitOf(n);
      assert ValueOf([]) == 0 && Decimal(n)[..0] == [];
    } else {
      DecimalReads(n / 10);
      DigitOf(n % 10);
      assert Decimal(n)[..|Decimal(n)| - 1] == Decimal(n / 10);
    }
  }

  /** A name and a number printed with a separator between them can be told apart again. */
  lemma NumberedNameInjective(a: string, m: nat, b: string, n: nat, separator: char)
    requires !IsDigit(separator) && a + [separator] + Decimal(m) == b + [separator] + Decimal(n)
    ensures a == b && m == n
  {
    DecimalReads(m);
    DecimalReads(n);
    LastSeparator(a, Decimal(m), b, Decimal(n), separator);
  }

  /** No separator stands after the last one. */
  lemma SeparatorNotAfter(a: string, x: string, b: string, y: string, separator: char)
    requires separator !in x && a + [separator] + x == b + [separator] + y
    ensures |b| <= |a|
  {
    var s := a + [separator] + x;
    assert (b + [separator] + y)[|b|] == separator;
    forall i | |a| < i < |s| ensures s[i] != separator {
      assert s[i] == x[i - |a| - 1];
    }
  }

  lemma LastSeparator(a: string, x: string, b: string, y: string, separator: char)
    requires separator !in x && separator !in y && a + [separator] + x == b + [separator] + y
    ensures a == b && x == y
  {
    SeparatorNotAfter(a, x, b, y, separator);
    SeparatorNotAfter(b, y, a, x, separator);
    var s, t := a + [separator] + x, b + [separator] + y;
    assert a == s[..|a|] && b == t[..|b|];
    assert x == s[|a| + 1..] && y == t[|b| + 1..];
  }

  /** Lexicographic order. Rust compares UTF-8 bytes, which orders strings as their scalar values do. */
  predicate StringLe(a: string, b: string) {
    a == [] || (b != [] && (a[0] < b[0] || (a[0] == b[0] && StringLe(a[1..], b[1..]))))
  }

  predicate PartitionLe(p: Partition, q: Partition) {
    if p.0 == q.0 then p.1 <= q.1 else StringLe(p.0, q.0)
  }

  predicate NatLe(a: nat, b: nat) { a <= b }

  function Min(a: nat, b: nat): nat { if a <= b then a else b }

  ghost predicate TotalOrder<T(!new)>(le: (T, T) -> bool) {
    && (forall x, y :: le(x, y) || le(y, x))
    && (forall x, y :: le(x, y) && le(y, x) ==> x == y)
    && (forall x, y, z :: le(x, y) && le(y, z) ==> le(x, z))
  }

  /** What lexicographic means: the first difference decides, and a prefix comes first. */
  lemma {:induction false} StringLeIs(a: string, b: string)
    ensures StringLe(a, b) <==>
            exists k :: 0 <= k <= |a| && k <= |b| && a[..k] == b[..k] && (k == |a| || (k < |b| && a[k] < b[k]))
  {
    if a == [] {
      assert a[..0] == b[..0];
    } else if b != [] && a[0] == b[0] {
      var a', b' := a[1..], b[1..];
      StringLeIs(a', b');
      if k :| 0 <= k <= |a'| && k <= |b'| && a'[..k] == b'[..k] && (k == |a'| || (k < |b'| && a'[k] < b'[k])) {
        assert a[..k + 1] == [a[0]] + a'[..k] && b[..k + 1] == [b[0]] + b'[..k];
      }
      if k :| 0 <= k <= |a| && k <= |b| && a[..k] == b[..k] && (k == |a| || (k < |b| && a[k] < b[k])) {
        if 0 < k {
          assert a'[..k - 1] == a[..k][1..] && b'[..k - 1] == b[..k][1..];
        }
      }
    } else if b != [] && a[0] < b[0] {
      assert a[..0] == b[..0];
    } else {
      forall k | 0 < k <= |a| && k <= |b| ensures a[..k] != b[..k] {
        assert a[..k][0] != b[..k][0];
      }
    }
  }

  lemma {:induction false} StringLeTotal(a: string, b: string)
    ensures StringLe(a, b) || StringLe(b, a)
    ensures StringLe(a, b) && StringLe(b, a) ==> a == b
  {
    if a != [] && b != [] && a[0] == b[0] {
      StringLeTotal(a[1..], b[1..]);
      assert a == [a[0]] + a[1..] && b == [b[0]] + b[1..];
    }
  }

  lemma {:induction false} StringLeTransitive(a: string, b: string, c: string)
    requires StringLe(a, b) && StringLe(b, c)
    ensures StringLe(a, c)
  {
    if a != [] && a[0] == b[0] && b[0] == c[0] {
      StringLeTransitive(a[1..], b[1..], c[1..]);
    }
  }

  lemma StringOrder()
    ensures TotalOrder(StringLe)
  {
    forall a, b ensures (StringLe(a, b) || StringLe(b, a)) && (StringLe(a, b) && StringLe(b, a) ==> a == b) {
      StringLeTotal(a, b);
    }
    forall a, b, c | StringLe(a, b) && StringLe(b, c) ensures StringLe(a, c) {
      StringLeTransitive(a, b, c);
    }
  }

  lemma PartitionOrder()
    ensures TotalOrder(PartitionLe)
  {
    StringOrder();
    forall p, q, r | PartitionLe(p, q) && PartitionLe(q, r) ensures PartitionLe(p, r) {
      StringLeTotal(p.0, q.0);
    }
  }

  lemma NatOrder()
    ensures TotalOrder(NatLe)
  {
  }

  // ---------- sorting ----------

  ghost predicate Sorted<T>(s: seq<T>, le: (T, T) -> bool) {
    forall i, j :: 0 <= i < j < |s| ==> le(s[i], s[j])
  }

  ghost predicate NoRepeats<T>(s: seq<T>) {
    forall i, j :: 0 <= i < j < |s| ==> s[i] != s[j]
  }

  ghost function Elements<T>(s: seq<T>): set<T> {
    set x | x in s
  }

  function Insert<T>(x: T, s: seq<T>, le: (T, T) -> bool): (r: seq<T>)
    ensures multiset(r) == multiset(s) + multiset{x}
  {
    if s == [] || le(x, s[0]) then [x] + s
    else
      assert s == [s[0]] + s[1..];
      [s[0]] + Insert(x, s[1..], le)
  }

  function Sort<T>(s: seq<T>, le: (T, T) -> bool): (r: seq<T>)
    ensures multiset(r) == multiset(s)
  {
    if s == [] then []
    else
      assert s == [s[0]] + s[1..];
      Insert(s[0], Sort(s[1..], le), le)
  }

  lemma {:induction false} InsertSorts<T(!new)>(x: T, s: seq<T>, le: (T, T) -> bool)
    requires TotalOrder(le) && Sorted(s, le)
    ensures Sorted(Insert(x, s, le), le)
  {
    if s == [] {
    } else if le(x, s[0]) {
      assert forall j :: 0 <= j < |s| ==> le(x, s[j]);
    } else {
      InsertSorts(x, s[1..], le);
      var r := Insert(x, s[1..], le);
      forall j | 0 <= j < |r| ensures le(s[0], r[j]) {
        assert r[j] in multiset(r);
        if r[j] != x {
          assert r[j] in s[1..];
        }
      }
    }
  }

  lemma {:induction false} SortSorts<T(!new)>(s: seq<T>, le: (T, T) -> bool)
    requires TotalOrder(le)
    ensures Sorted(Sort(s, le), le)
  {
    if s != [] {
      SortSorts(s[1..], le);
      InsertSorts(s[0], Sort(s[1..], le), le);
    }
  }

  /** Sorting what is already sorted changes nothing; no law of the order is needed. */
  lemma {:induction false} SortIdentity<T>(s: seq<T>, le: (T, T) -> bool)
    requires Sorted(s, le)
    ensures Sort(s, le) == s
  {
    if s != [] {
      SortIdentity(s[1..], le);
      assert |s| > 1 ==> le(s[0], s[1]);
      assert s == [s[0]] + s[1..];
    }
  }

  lemma DropFirst<T>(s: seq<T>)
    requires s != []
    ensures multiset(s[1..]) == multiset(s) - multiset{s[0]}
  {
    assert s == [s[0]] + s[1..];
  }

  lemma FirstIsLeast<T(!new)>(s: seq<T>, x: T, le: (T, T) -> bool)
    requires TotalOrder(le) && Sorted(s, le) && x in multiset(s)
    ensures le(s[0], x)
  {
    var i :| 0 <= i < |s| && s[i] == x;
  }

  /** Two sorted sequences with the same elements, counted, are the same sequence. */
  lemma {:induction false} SortedUnique<T(!new)>(a: seq<T>, b: seq<T>, le: (T, T) -> bool)
    requires TotalOrder(le) && Sorted(a, le) && Sorted(b, le)
    requires multiset(a) == multiset(b)
    ensures a == b
  {
    if a == [] {
      assert |multiset(b)| == 0;
    } else {
      assert |multiset(a)| == |multiset(b)|;
      FirstIsLeast(a, b[0], le);
      FirstIsLeast(b, a[0], le);
      DropFirst(a);
      DropFirst(b);
      SortedUnique(a[1..], b[1..], le);
    }
  }

  /** Sorting forgets the order in which a hash map or a directory listing delivered its keys. */
  lemma SortForgetsOrder<T(!new)>(a: seq<T>, b: seq<T>, le: (T, T) -> bool)
    requires TotalOrder(le) && multiset(a) == multiset(b)
    ensures Sort(a, le) == Sort(b, le)
  {
    SortSorts(a, le);
    SortSorts(b, le);
    SortedUnique(Sort(a, le), Sort(b, le), le);
  }

  // ---------- sequences without repeats and sets ----------

  lemma {:induction false} NoRepeatsMultiset<T>(s: seq<T>)
    ensures NoRepeats(s) <==> forall x :: x in s ==> multiset(s)[x] == 1
  {
    if s != [] {
      var t := s[1..];
      assert s == [s[0]] + t;
      NoRepeatsMultiset(t);
      if NoRepeats(s) {
        assert NoRepeats(t);
        assert s[0] !in t;
      }
      if forall x :: x in s ==> multiset(s)[x] == 1 {
        assert multiset(s)[s[0]] == 1;
        assert s[0] !in multiset(t);
        forall x | x in t ensures multiset(t)[x] == 1 {
          assert x in s && multiset(s)[x] == 1;
        }
        assert NoRepeats(t);
      }
    }
  }

  lemma SameMultisetSameSet<T>(a: seq<T>, b: seq<T>)
    requires multiset(a) == multiset(b)
    ensures |a| == |b|
    ensures Elements(a) == Elements(b)
    ensures NoRepeats(a) ==> NoRepeats(b)
  {
    assert |multiset(a)| == |multiset(b)|;
    assert forall x :: x in a <==> x in multiset(a);
    assert forall x :: x in b <==> x in multiset(b);
    NoRepeatsMultiset(a);
    NoRepeatsMultiset(b);
  }

  lemma {:induction false} NoRepeatsSize<T>(s: seq<T>)
    requires NoRepeats(s)
    ensures |Elements(s)| == |s|
  {
    if s != [] {
      var t := s[..|s| - 1];
      NoRepeatsSize(t);
      assert s == t + [s[|s| - 1]];
      assert Elements(s) == Elements(t) + {s[|s| - 1]};
      assert s[|s| - 1] !in t;
    }
  }

  lemma {:induction false} EnumerationMultiset<T>(a: seq<T>, b: seq<T>)
    requires NoRepeats(a) && NoRepeats(b) && Elements(a) == Elements(b)
    ensures multiset(a) == multiset(b)
  {
    NoRepeatsMultiset(a);
    NoRepeatsMultiset(b);
    forall x ensures multiset(a)[x] == multiset(b)[x] {
      assert x in a <==> x in Elements(a);
      assert x in b <==> x in Elements(b);
      assert x in a <==> x in multiset(a);
      assert x in b <==> x in multiset(b);
    }
  }

  /** `s` lists the set `e` once each, in order: what `keys().collect()` followed by `sort()` leaves. */
  ghost predicate Lists<T>(s: seq<T>, e: set<T>, le: (T, T) -> bool) {
    NoRepeats(s) && Elements(s) == e && Sorted(s, le)
  }

  lemma ListsUnique<T(!new)>(a: seq<T>, b: seq<T>, e: set<T>, le: (T, T) -> bool)
    requires TotalOrder(le) && Lists(a, e, le) && Lists(b, e, le)
    ensures a == b
  {
    EnumerationMultiset(a, b);
    SortedUnique(a, b, le);
  }

  /** The keys of a hash map, in whatever order it iterates, then sorted. */
  method SortedKeys<T(!new, ==)>(e: set<T>, le: (T, T) -> bool) returns (s: seq<T>)
    requires TotalOrder(le)
    ensures Lists(s, e, le)
  {
    var rest := e;
    var keys: seq<T> := [];
    while rest != {}
      invariant NoRepeats(keys) && Elements(keys) + rest == e && Elements(keys) !! rest
      decreases rest
    {
      var x :| x in rest;
      assert forall i :: 0 <= i < |keys| ==> keys[i] in Elements(keys);
      assert Elements(keys + [x]) == Elements(keys) + {x};
      keys := keys + [x];
      rest := rest - {x};
    }
    s := Sort(keys, le);
    SortSorts(keys, le);
    SameMultisetSameSet(keys, s);
  }

  lemma {:induction false} EnumerationExists<T>(e: set<T>) returns (s: seq<T>)
    ensures NoRepeats(s) && Elements(s) == e
  {
    if e == {} {
      s := [];
    } else {
      var x :| x in e;
      var t := EnumerationExists(e - {x});
      assert forall i :: 0 <= i < |t| ==> t[i] in Elements(t);
      s := [x] + t;
      assert Elements(s) == {x} + Elements(t);
    }
  }

  /** The one sorted listing of a set. */
  ghost function SortedListing<T(!new)>(e: set<T>, le: (T, T) -> bool): (s: seq<T>)
    requires TotalOrder(le)
    ensures Lists(s, e, le)
  {
    ListingExists(e, le);
    var s :| Lists(s, e, le);
    s
  }

  lemma ListingExists<T(!new)>(e: set<T>, le: (T, T) -> bool)
    requires TotalOrder(le)
    ensures exists s :: Lists(s, e, le)
  {
    var keys := EnumerationExists(e);
    SortSorts(keys, le);
    SameMultisetSameSet(keys, Sort(keys, le));
    assert Lists(Sort(keys, le), e, le);
  }
}
