/** The list operations of the container library that the model relies on. */
module Lists {

  /** Removes every occurrence of `x`. */
  function Without<T(==)>(s: seq<T>, x: T): (r: seq<T>)
    ensures multiset(r) == multiset(s)[x := 0]
    ensures forall y <- r :: y in s && y != x
    ensures forall y <- s :: y != x ==> y in r
    ensures |r| <= |s|
  {
    if s == [] then []
    else
      assert s == [s[0]] + s[1..];
      if s[0] == x then Without(s[1..], x) else [s[0]] + Without(s[1..], x)
  }

  lemma {:induction false} WithoutMissing<T>(s: seq<T>, x: T)
    requires x !in s
    ensures Without(s, x) == s
  {
    if s != [] {
      WithoutMissing(s[1..], x);
    }
  }

  lemma {:induction false} WithoutSum<T>(a: seq<T>, b: seq<T>, x: T)
    ensures Without(a + b, x) == Without(a, x) + Without(b, x)
  {
    if a == [] {
      assert a + b == b;
    } else {
      assert (a + b)[1..] == a[1..] + b;
      WithoutSum(a[1..], b, x);
    }
  }

  /** Inserts `x` before position `pos`; positions outside the list mean its nearest end. */
  function InsertAt<T>(s: seq<T>, pos: int, x: T): (r: seq<T>)
    ensures multiset(r) == multiset(s) + multiset{x}
    ensures x in r
    ensures forall y <- r :: y in s || y == x
    ensures forall y <- s :: y in r
    ensures |r| == |s| + 1
  {
    var p := if pos < 0 then 0 else if pos > |s| then |s| else pos;
    assert s == s[..p] + s[p..];
    s[..p] + [x] + s[p..]
  }

  /** Appends when `pos` is -1, and inserts before `pos` otherwise. */
  function Place<T>(s: seq<T>, pos: int, x: T): (r: seq<T>)
    ensures multiset(r) == multiset(s) + multiset{x}
    ensures x in r
    ensures forall y <- r :: y in s || y == x
    ensures forall y <- s :: y in r
  {
    if pos == -1 then s + [x] else InsertAt(s, pos, x)
  }

  /** Position of the first occurrence, or -1. */
  function IndexOf<T(==)>(s: seq<T>, x: T): (r: int)
    ensures -1 <= r < |s|
    ensures r >= 0 ==> s[r] == x && x !in s[..r]
    ensures r == -1 <==> x !in s
  {
    if s == [] then -1
    else if s[0] == x then 0
    else
      var i := IndexOf(s[1..], x);
      if i == -1 then -1
      else
        assert s[..i + 1] == [s[0]] + s[1..][..i];
        i + 1
  }

  /** Takes the element at `from` out and puts it back at `to`. */
  function Moved<T>(s: seq<T>, from: nat, to: nat): (r: seq<T>)
    requires from < |s| && to < |s|
    ensures multiset(r) == multiset(s)
    ensures forall y <- r :: y in s
    ensures forall y <- s :: y in r
    ensures |r| == |s| && r[to] == s[from]
  {
    var rest := s[..from] + s[from + 1..];
    assert s == s[..from] + [s[from]] + s[from + 1..];
    assert rest == rest[..to] + rest[to..];
    assert multiset(s) == multiset(rest) + multiset{s[from]};
    var r := rest[..to] + [s[from]] + rest[to..];
    assert multiset(r) == multiset(s);
    assert forall y <- r :: y in multiset(s);
    assert forall i :: 0 <= i < |s| ==> s[i] in multiset(s);
    r
  }

  predicate NoDup<T(==)>(s: seq<T>) {
    forall i, j :: 0 <= i < j < |s| ==> s[i] != s[j]
  }

  /** A list without duplicates is one in which every member has multiplicity one. */
  lemma {:induction false} NoDupIsMultOne<T>(s: seq<T>)
    ensures NoDup(s) <==> forall x :: x in s ==> multiset(s)[x] == 1
  {
    if s != [] {
      assert s == [s[0]] + s[1..];
      NoDupIsMultOne(s[1..]);
      if NoDup(s) {
        assert NoDup(s[1..]);
        forall x | x in s ensures multiset(s)[x] == 1 {
          if x == s[0] { assert x !in s[1..]; } else { assert x in s[1..]; }
        }
      }
      if forall x :: x in s ==> multiset(s)[x] == 1 {
        assert multiset(s)[s[0]] == 1;
        assert s[0] !in s[1..];
        forall x | x in s[1..] ensures multiset(s[1..])[x] == 1 {
          assert x in s;
        }
      }
    }
  }

  ghost predicate TotalOrder<T(!new)>(le: (T, T) -> bool) {
    && (forall a, b :: le(a, b) || le(b, a))
    && (forall a, b :: le(a, b) && le(b, a) ==> a == b)
    && (forall a, b, c :: le(a, b) && le(b, c) ==> le(a, c))
  }

  /** The members of a set, each once, the least first. */
  function Sorted<T(!new)>(s: set<T>, le: (T, T) -> bool): (r: seq<T>)
    requires TotalOrder(le)
    ensures forall x :: x in r <==> x in s
    ensures forall i, j :: 0 <= i < j < |r| ==> r[i] != r[j] && le(r[i], r[j])
  {
    if s == {} then []
    else
      var m := Least(s, le);
      [m] + Sorted(s - {m}, le)
  }

  function Least<T(!new)>(s: set<T>, le: (T, T) -> bool): (m: T)
    requires s != {} && TotalOrder(le)
    ensures IsLeast(m, s, le)
  {
    LeastExists(s, le);
    var m :| m in s && IsLeast(m, s, le);
    m
  }

  predicate IsLeast<T>(m: T, s: set<T>, le: (T, T) -> bool) {
    m in s && forall x <- s :: le(m, x)
  }

  lemma {:induction false} LeastExists<T(!new)>(s: set<T>, le: (T, T) -> bool)
    requires s != {} && TotalOrder(le)
    ensures exists m :: IsLeast(m, s, le)
  {
    assert (forall x: T :: x !in s) ==> s == {};
    var a :| a in s;
    var rest := s - {a};
    if rest == {} {
      forall x | x in s ensures le(a, x) {
        assert x != a ==> x in rest;
      }
      assert IsLeast(a, s, le);
    } else {
      LeastExists(rest, le);
      var b :| IsLeast(b, rest, le);
      var m := if le(a, b) then a else b;
      forall x | x in s ensures le(m, x) {
        assert x == a || x in rest;
      }
      assert IsLeast(m, s, le);
    }
  }

  predicate AtMost(a: int, b: int) { a <= b }

  /** The members of a set of numbers in ascending order. */
  function Ascending(s: set<int>): (r: seq<int>)
    ensures forall x :: x in r <==> x in s
    ensures forall i, j :: 0 <= i < j < |r| ==> r[i] < r[j]
  {
    Sorted(s, AtMost)
  }

  /** Words are compared letter by letter, and a word comes after its beginnings. */
  predicate NotAfter(a: string, b: string) {
    a == "" || (b != "" && (a[0] < b[0] || (a[0] == b[0] && NotAfter(a[1..], b[1..]))))
  }

  lemma {:induction false} WordsTotal(a: string, b: string)
    ensures NotAfter(a, b) || NotAfter(b, a)
    ensures NotAfter(a, b) && NotAfter(b, a) ==> a == b
  {
    if a != "" && b != "" && a[0] == b[0] {
      WordsTotal(a[1..], b[1..]);
      assert a == [a[0]] + a[1..] && b == [b[0]] + b[1..];
    }
  }

  lemma {:induction false} WordsTransitive(a: string, b: string, c: string)
    ensures NotAfter(a, b) && NotAfter(b, c) ==> NotAfter(a, c)
  {
    if a != "" && b != "" && c != "" {
      WordsTransitive(a[1..], b[1..], c[1..]);
    }
  }

  lemma WordsOrdered()
    ensures TotalOrder(NotAfter)
  {
    forall a, b ensures NotAfter(a, b) || NotAfter(b, a) {
      WordsTotal(a, b);
    }
    forall a, b ensures NotAfter(a, b) && NotAfter(b, a) ==> a == b {
      WordsTotal(a, b);
    }
    forall a, b, c ensures NotAfter(a, b) && NotAfter(b, c) ==> NotAfter(a, c) {
      WordsTransitive(a, b, c);
    }
  }

  /** The members of a set of words in ascending order. */
  function Alphabetic(s: set<string>): (r: seq<string>)
    ensures forall x :: x in r <==> x in s
    ensures NoDup(r) && forall i, j :: 0 <= i < j < |r| ==> NotAfter(r[i], r[j])
  {
    WordsOrdered();
    Sorted(s, NotAfter)
  }

  // ---- renaming the elements of a list --------------------------------------------------------

  function Each<T, U>(f: T -> U, s: seq<T>): (r: seq<U>)
    ensures |r| == |s| && forall i :: 0 <= i < |s| ==> r[i] == f(s[i])
  {
    seq(|s|, i requires 0 <= i < |s| => f(s[i]))
  }

  lemma EachNext<T, U>(f: T -> U, s: seq<T>, x: T)
    ensures Each(f, s + [x]) == Each(f, s) + [f(x)]
  {
  }

  lemma EachParts<T, U>(f: T -> U, a: seq<T>, x: T, b: seq<T>)
    ensures Each(f, a + [x] + b) == Each(f, a) + [f(x)] + Each(f, b)
  {
  }

  lemma EachSlices<T, U>(f: T -> U, s: seq<T>, p: nat)
    requires p <= |s|
    ensures Each(f, s[..p]) == Each(f, s)[..p] && Each(f, s[p..]) == Each(f, s)[p..]
  {
  }

  lemma EachPlace<T, U>(f: T -> U, s: seq<T>, pos: int, x: T)
    ensures Each(f, Place(s, pos, x)) == Place(Each(f, s), pos, f(x))
  {
    hide Each;
    if pos == -1 {
      EachNext(f, s, x);
    } else {
      var p := if pos < 0 then 0 else if pos > |s| then |s| else pos;
      EachParts(f, s[..p], x, s[p..]);
      EachSlices(f, s, p);
    }
  }

  lemma NothingEach<T, U>(f: T -> U, x: T)
    ensures Each(f, []) == [] && Without([], x) == [] && Without([], f(x)) == []
  {
  }

  lemma EachCons<T, U>(f: T -> U, x: T, s: seq<T>)
    ensures Each(f, [x] + s) == [f(x)] + Each(f, s)
  {
  }

  lemma WithoutCons<T>(y: T, s: seq<T>, x: T)
    ensures Without([y] + s, x) == if y == x then Without(s, x) else [y] + Without(s, x)
  {
    assert ([y] + s)[1..] == s;
  }

  lemma {:induction false} EachWithout<T, U>(f: T -> U, s: seq<T>, x: T)
    requires forall y <- s :: f(y) == f(x) ==> y == x
    ensures Each(f, Without(s, x)) == Without(Each(f, s), f(x))
  {
    hide Each;
    hide Without;
    if s != [] {
      assert s == [s[0]] + s[1..];
      assert forall y <- s[1..] :: y in s;
      EachWithout(f, s[1..], x);
      EachCons(f, s[0], s[1..]);
      EachCons(f, s[0], Without(s[1..], x));
      WithoutCons(s[0], s[1..], x);
      WithoutCons(f(s[0]), Each(f, s[1..]), f(x));
      assert s[0] in s;
    } else {
      NothingEach(f, x);
    }
  }

  lemma {:induction false} EachIndexOf<T, U>(f: T -> U, s: seq<T>, x: T)
    requires forall y <- s :: f(y) == f(x) ==> y == x
    ensures IndexOf(Each(f, s), f(x)) == IndexOf(s, x)
  {
    if s != [] {
      assert s == [s[0]] + s[1..];
      assert forall y <- s[1..] :: y in s;
      EachIndexOf(f, s[1..], x);
      assert Each(f, s)[1..] == Each(f, s[1..]) && s[0] in s;
    }
  }

  lemma EachMoved<T, U>(f: T -> U, s: seq<T>, from: nat, to: nat)
    requires from < |s| && to < |s|
    ensures Each(f, Moved(s, from, to)) == Moved(Each(f, s), from, to)
  {
    var rest := s[..from] + s[from + 1..];
    assert Each(f, rest) == Each(f, s)[..from] + Each(f, s)[from + 1..];
    assert Each(f, rest[..to]) == Each(f, rest)[..to] && Each(f, rest[to..]) == Each(f, rest)[to..];
  }
}
