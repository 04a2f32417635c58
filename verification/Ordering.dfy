/** Total orders, sorting and compaction: slices.Sort, slices.SortFunc and slices.Compact. */
module Ordering {
  import opened Basics

  ghost predicate TotalOrder<T(!new)>(le: (T, T) -> bool) {
    && (forall a, b :: le(a, b) || le(b, a))
    && (forall a, b :: le(a, b) && le(b, a) ==> a == b)
    && (forall a, b, c :: le(a, b) && le(b, c) ==> le(a, c))
  }

  ghost predicate Sorted<T(!new)>(le: (T, T) -> bool, s: seq<T>) {
    forall i, j :: 0 <= i < j < |s| ==> le(s[i], s[j])
  }

  function Insert<T>(le: (T, T) -> bool, x: T, s: seq<T>): (r: seq<T>)
    ensures multiset(r) == multiset(s) + multiset{x}
  {
    if s == [] then [x]
    else if le(x, s[0]) then [x] + s
    else
      assert s == [s[0]] + s[1..];
      [s[0]] + Insert(le, x, s[1..])
  }

  function Sort<T>(le: (T, T) -> bool, s: seq<T>): (r: seq<T>)
    ensures multiset(r) == multiset(s)
  {
    if s == [] then [] else
      assert s == [s[0]] + s[1..];
      Insert(le, s[0], Sort(le, s[1..]))
  }

  lemma SameMembers<T(!new)>(a: seq<T>, b: seq<T>)
    requires multiset(a) == multiset(b)
    ensures |a| == |b|
    ensures forall x :: x in a <==> x in b
  {
    assert |a| == |multiset(a)|;
    assert forall x :: x in a <==> x in multiset(a);
    assert forall x :: x in b <==> x in multiset(b);
  }

  lemma {:induction false} InsertSorted<T(!new)>(le: (T, T) -> bool, x: T, s: seq<T>)
    requires TotalOrder(le) && Sorted(le, s)
    ensures Sorted(le, Insert(le, x, s))
  {
    if s != [] && !le(x, s[0]) {
      var rest := Insert(le, x, s[1..]);
      InsertSorted(le, x, s[1..]);
      SameMembers(rest, [x] + s[1..]);
      forall y | y in rest ensures le(s[0], y) {
        assert y == x || y in s[1..];
      }
    }
  }

  lemma {:induction false} SortSorts<T(!new)>(le: (T, T) -> bool, s: seq<T>)
    requires TotalOrder(le)
    ensures Sorted(le, Sort(le, s))
  {
    if s != [] {
      SortSorts(le, s[1..]);
      InsertSorted(le, s[0], Sort(le, s[1..]));
    }
  }

  lemma HeadAndTail<T>(s: seq<T>)
    requires s != []
    ensures s == [s[0]] + s[1..]
    ensures multiset(s[1..]) == multiset(s) - multiset{s[0]}
  {
    assert s == [s[0]] + s[1..];
  }

  lemma SortedHead<T(!new)>(le: (T, T) -> bool, s: seq<T>)
    requires TotalOrder(le) && Sorted(le, s) && s != []
    ensures forall x :: x in s ==> le(s[0], x)
    ensures Sorted(le, s[1..])
  {
    assert le(s[0], s[0]);
  }

  lemma SameHead<T(!new)>(le: (T, T) -> bool, a: seq<T>, b: seq<T>)
    requires TotalOrder(le) && Sorted(le, a) && Sorted(le, b) && a != [] && b != []
    requires forall x :: x in a <==> x in b
    ensures a[0] == b[0]
  {
    SortedHead(le, a);
    SortedHead(le, b);
    assert a[0] in b && b[0] in a;
  }

  /** A sorted list is determined by its members, counted. */
  lemma {:induction false} SortedUnique<T(!new)>(le: (T, T) -> bool, a: seq<T>, b: seq<T>)
    requires TotalOrder(le) && Sorted(le, a) && Sorted(le, b)
    requires multiset(a) == multiset(b)
    ensures a == b
  {
    SameMembers(a, b);
    if a != [] {
      SameHead(le, a, b);
      HeadAndTail(a);
      HeadAndTail(b);
      SortedUnique(le, a[1..], b[1..]);
    }
  }

  /** Sorting forgets exactly the order. */
  lemma SortEqual<T(!new)>(le: (T, T) -> bool, a: seq<T>, b: seq<T>)
    requires TotalOrder(le)
    ensures Sort(le, a) == Sort(le, b) <==> multiset(a) == multiset(b)
  {
    SortSorts(le, a);
    SortSorts(le, b);
    if multiset(a) == multiset(b) {
      SortedUnique(le, Sort(le, a), Sort(le, b));
    }
  }

  /** Drops a member equal to the one kept before it: slices.Compact. */
  function Compact<T(==, !new)>(s: seq<T>): (r: seq<T>)
    ensures forall x :: x in r <==> x in s
    ensures s != [] ==> r != [] && r[|r| - 1] == s[|s| - 1]
  {
    if s == [] then [] else
      var r := Compact(s[..|s| - 1]);
      if r != [] && r[|r| - 1] == s[|s| - 1] then r else r + [s[|s| - 1]]
  }

  lemma {:induction false} CompactSorted<T(!new)>(le: (T, T) -> bool, s: seq<T>)
    requires TotalOrder(le) && Sorted(le, s)
    ensures Sorted(le, Compact(s)) && NoRepeats(Compact(s))
  {
    if s != [] {
      var init, x := s[..|s| - 1], s[|s| - 1];
      CompactSorted(le, init);
      var r := Compact(init);
      forall y | y in r ensures le(y, x) {
        assert y in init;
      }
      if r != [] && r[|r| - 1] != x {
        forall i | 0 <= i < |r| ensures r[i] != x {
          assert le(r[i], r[|r| - 1]) || i == |r| - 1;
          assert le(r[|r| - 1], x);
        }
      }
    }
  }

  /** Sorted and without repeats: what every GroupNames returns. */
  function SortedSet<T(==, !new)>(le: (T, T) -> bool, s: seq<T>): seq<T> {
    Compact(Sort(le, s))
  }

  lemma SortedSetMeaning<T(!new)>(le: (T, T) -> bool, s: seq<T>)
    requires TotalOrder(le)
    ensures Sorted(le, SortedSet(le, s)) && NoRepeats(SortedSet(le, s))
    ensures forall x :: x in SortedSet(le, s) <==> x in s
  {
    SortSorts(le, s);
    CompactSorted(le, Sort(le, s));
    SameMembers(Sort(le, s), s);
  }

  /** The sorted set depends on which members there are, and on nothing else. */
  lemma SortedSetUnique<T(!new)>(le: (T, T) -> bool, a: seq<T>, b: seq<T>)
    requires TotalOrder(le)
    ensures (forall x :: x in a <==> x in b) <==> SortedSet(le, a) == SortedSet(le, b)
  {
    SortedSetMeaning(le, a);
    SortedSetMeaning(le, b);
    if forall x :: x in a <==> x in b {
      StrictUnique(le, SortedSet(le, a), SortedSet(le, b));
    }
  }

  lemma {:induction false} StrictUnique<T(!new)>(le: (T, T) -> bool, a: seq<T>, b: seq<T>)
    requires TotalOrder(le) && Sorted(le, a) && Sorted(le, b) && NoRepeats(a) && NoRepeats(b)
    requires forall x :: x in a <==> x in b
    ensures a == b
  {
    assert a != [] ==> a[0] in b;
    assert b != [] ==> b[0] in a;
    if a != [] && b != [] {
      SameHead(le, a, b);
      forall x ensures x in a[1..] <==> x in b[1..] {
        assert x in a[1..] <==> x in a && x != a[0];
        assert x in b[1..] <==> x in b && x != b[0];
      }
      StrictUnique(le, a[1..], b[1..]);
    }
  }

  /** Lexicographic order, by the rank of each element. */
  predicate LexLe<T>(rank: T -> int, a: seq<T>, b: seq<T>) {
    a == [] || (b != [] &&
                (rank(a[0]) < rank(b[0]) ||
                 (rank(a[0]) == rank(b[0]) && LexLe(rank, a[1..], b[1..]))))
  }

  /** They agree up to `i`, where the first one ends or is the smaller. */
  ghost predicate PartsAt<T(!new)>(rank: T -> int, a: seq<T>, b: seq<T>, i: nat) {
    && i <= |a| && i <= |b|
    && (forall k :: 0 <= k < i ==> rank(a[k]) == rank(b[k]))
    && (i == |a| || (i < |b| && rank(a[i]) < rank(b[i])))
  }

  lemma {:induction false} LexMeaning<T(!new)>(rank: T -> int, a: seq<T>, b: seq<T>)
    ensures LexLe(rank, a, b) <==> exists i :: PartsAt(rank, a, b, i)
  {
    if a == [] {
      assert PartsAt(rank, a, b, 0);
    } else if b != [] {
      var ta, tb := a[1..], b[1..];
      LexMeaning(rank, ta, tb);
      if rank(a[0]) < rank(b[0]) {
        assert PartsAt(rank, a, b, 0);
      }
      if i: nat :| PartsAt(rank, ta, tb, i) && rank(a[0]) == rank(b[0]) {
        forall k | 0 <= k < i + 1 ensures rank(a[k]) == rank(b[k]) {
          assert k > 0 ==> a[k] == ta[k - 1] && b[k] == tb[k - 1];
        }
        assert PartsAt(rank, a, b, i + 1);
      }
      if i: nat :| PartsAt(rank, a, b, i) && i > 0 {
        forall k | 0 <= k < i - 1 ensures rank(ta[k]) == rank(tb[k]) {
          assert ta[k] == a[k + 1] && tb[k] == b[k + 1];
        }
        assert PartsAt(rank, ta, tb, i - 1);
      }
    }
  }

  lemma {:induction false} LexTotal<T>(rank: T -> int, a: seq<T>, b: seq<T>)
    ensures LexLe(rank, a, b) || LexLe(rank, b, a)
  {
    if a != [] && b != [] {
      LexTotal(rank, a[1..], b[1..]);
    }
  }

  lemma {:induction false} LexAntisymmetric<T(!new)>(rank: T -> int, a: seq<T>, b: seq<T>)
    requires forall x, y :: rank(x) == rank(y) ==> x == y
    requires LexLe(rank, a, b) && LexLe(rank, b, a)
    ensures a == b
  {
    if a != [] && b != [] {
      LexAntisymmetric(rank, a[1..], b[1..]);
      assert a == [a[0]] + a[1..] && b == [b[0]] + b[1..];
    }
  }

  lemma {:induction false} LexTransitive<T>(rank: T -> int, a: seq<T>, b: seq<T>, c: seq<T>)
    requires LexLe(rank, a, b) && LexLe(rank, b, c)
    ensures LexLe(rank, a, c)
  {
    if a != [] && b != [] && c != [] && rank(a[0]) == rank(b[0]) == rank(c[0]) {
      LexTransitive(rank, a[1..], b[1..], c[1..]);
    }
  }

  /** bytes.Compare. */
  predicate BytesLe(a: seq<Byte>, b: seq<Byte>) {
    LexLe((x: Byte) => x as int, a, b)
  }

  /** Go's string order: bytewise over UTF-8, which is the order of the code points. */
  predicate StringLe(a: string, b: string) {
    LexLe((c: char) => c as int, a, b)
  }

  /** One string stands before another if they part where it ends or has the smaller rune. */
  lemma StringOrder(a: string, b: string)
    ensures StringLe(a, b) <==>
            exists i :: 0 <= i <= |a| && i <= |b| && a[..i] == b[..i] && (i == |a| || (i < |b| && a[i] < b[i]))
  {
    var rank := (c: char) => c as int;
    LexMeaning(rank, a, b);
    if i: nat :| PartsAt(rank, a, b, i) {
      assert a[..i] == b[..i];
    }
    if i :| 0 <= i <= |a| && i <= |b| && a[..i] == b[..i] && (i == |a| || (i < |b| && a[i] < b[i])) {
      forall k | 0 <= k < i ensures rank(a[k]) == rank(b[k]) {
        assert a[k] == a[..i][k] && b[k] == b[..i][k];
      }
      assert PartsAt(rank, a, b, i);
    }
  }

  lemma BytesTotalOrder()
    ensures TotalOrder(BytesLe)
  {
    var rank := (x: Byte) => x as int;
    forall a, b ensures BytesLe(a, b) || BytesLe(b, a) { LexTotal(rank, a, b); }
    forall a, b | BytesLe(a, b) && BytesLe(b, a) ensures a == b { LexAntisymmetric(rank, a, b); }
    forall a, b, c | BytesLe(a, b) && BytesLe(b, c) ensures BytesLe(a, c) { LexTransitive(rank, a, b, c); }
  }

  lemma StringTotalOrder()
    ensures TotalOrder(StringLe)
  {
    var rank := (c: char) => c as int;
    forall a, b ensures StringLe(a, b) || StringLe(b, a) { LexTotal(rank, a, b); }
    forall a, b | StringLe(a, b) && StringLe(b, a) ensures a == b { LexAntisymmetric(rank, a, b); }
    forall a, b, c | StringLe(a, b) && StringLe(b, c) ensures StringLe(a, c) { LexTransitive(rank, a, b, c); }
  }
}
