/** Results, list helpers and the first-appearance deduplication that the whole package relies on. */
module Basics {
  datatype Option<+T> = None | Some(value: T)

  type Byte = b: int | 0 <= b < 256

  function AsciiLower(c: char): char {
    if 'A' <= c <= 'Z' then (c as int + 32) as char else c
  }

  lemma Regroup<T>(a: seq<T>, b: seq<T>, c: seq<T>)
    ensures (a + b) + c == a + (b + c)
  {}

  /** Concatenation of a list of lists. */
  function Flatten<T>(ss: seq<seq<T>>): seq<T> {
    if ss == [] then [] else ss[0] + Flatten(ss[1..])
  }

  lemma {:induction false} FlattenConcat<T>(a: seq<seq<T>>, b: seq<seq<T>>)
    ensures Flatten(a + b) == Flatten(a) + Flatten(b)
  {
    if a == [] {
      assert a + b == b;
    } else {
      assert (a + b)[1..] == a[1..] + b;
      FlattenConcat(a[1..], b);
    }
  }

  lemma FlattenSnoc<T>(a: seq<seq<T>>, x: seq<T>)
    ensures Flatten(a + [x]) == Flatten(a) + x
  {
    FlattenConcat(a, [x]);
    assert [x][1..] == [];
  }

  function Map<T, U>(f: T -> U, s: seq<T>): (r: seq<U>)
    ensures |r| == |s|
    ensures forall i :: 0 <= i < |s| ==> r[i] == f(s[i])
  {
    seq(|s|, i requires 0 <= i < |s| => f(s[i]))
  }

  lemma MapConcat<T, U>(f: T -> U, a: seq<T>, b: seq<T>)
    ensures Map(f, a + b) == Map(f, a) + Map(f, b)
  {}

  /** The members of `s` that satisfy `p`, in order. */
  function Filter<T(!new)>(p: T -> bool, s: seq<T>): (r: seq<T>)
    ensures forall x :: x in r <==> x in s && p(x)
  {
    if s == [] then [] else
      var rest := Filter(p, s[..|s| - 1]);
      if p(s[|s| - 1]) then rest + [s[|s| - 1]] else rest
  }

  lemma {:induction false} FilterConcat<T(!new)>(p: T -> bool, a: seq<T>, b: seq<T>)
    ensures Filter(p, a + b) == Filter(p, a) + Filter(p, b)
  {
    if b == [] {
      assert a + b == a;
    } else {
      var m := |b| - 1;
      assert (a + b)[..|a| + m] == a + b[..m];
      FilterConcat(p, a, b[..m]);
    }
  }

  ghost predicate NoRepeats<T(!new)>(s: seq<T>) {
    forall i, j :: 0 <= i < j < |s| ==> s[i] != s[j]
  }

  /** `acc`, then the members of `s` that are not there yet, each where it first appears. */
  function DedupOnto<T(==, !new)>(acc: seq<T>, s: seq<T>): (r: seq<T>)
    ensures acc <= r
    ensures forall x :: x in r <==> x in acc || x in s
  {
    if s == [] then acc else
      var r := DedupOnto(acc, s[..|s| - 1]);
      if s[|s| - 1] in r then r else r + [s[|s| - 1]]
  }

  function Dedup<T(==, !new)>(s: seq<T>): (r: seq<T>) {
    DedupOnto([], s)
  }

  lemma DedupNothing<T(!new)>(acc: seq<T>)
    ensures DedupOnto(acc, []) == acc
  {}

  lemma DedupSnoc<T(!new)>(acc: seq<T>, s: seq<T>, x: T)
    ensures var r := DedupOnto(acc, s);
            DedupOnto(acc, s + [x]) == if x in r then r else r + [x]
  {
    assert (s + [x])[..|s|] == s;
  }

  lemma {:induction false} DedupNoRepeats<T(!new)>(acc: seq<T>, s: seq<T>)
    requires NoRepeats(acc)
    ensures NoRepeats(DedupOnto(acc, s))
  {
    if s != [] {
      DedupNoRepeats(acc, s[..|s| - 1]);
    }
  }

  lemma {:induction false} DedupNothingNew<T(!new)>(acc: seq<T>, s: seq<T>)
    requires forall x :: x in s ==> x in acc
    ensures DedupOnto(acc, s) == acc
  {
    if s != [] {
      DedupNothingNew(acc, s[..|s| - 1]);
    }
  }

  /** A list without repeats is its own deduplication. */
  lemma {:induction false} DedupOfDistinct<T(!new)>(s: seq<T>)
    requires NoRepeats(s)
    ensures Dedup(s) == s
  {
    if s != [] {
      DedupOfDistinct(s[..|s| - 1]);
    }
  }

  lemma {:induction false} DedupConcat<T(!new)>(acc: seq<T>, a: seq<T>, b: seq<T>)
    ensures DedupOnto(acc, a + b) == DedupOnto(DedupOnto(acc, a), b)
  {
    hide DedupOnto;
    if b == [] {
      assert a + b == a;
      DedupNothing(DedupOnto(acc, a));
    } else {
      var init, x := b[..|b| - 1], b[|b| - 1];
      DedupConcat(acc, a, init);
      DedupSnoc(acc, a + init, x);
      DedupSnoc(DedupOnto(acc, a), init, x);
      assert b == init + [x] && a + b == (a + init) + [x];
    }
  }

  /** Deduplicating a list before appending it changes nothing. */
  lemma {:induction false} DedupTwice<T(!new)>(acc: seq<T>, s: seq<T>)
    ensures DedupOnto(acc, Dedup(s)) == DedupOnto(acc, s)
  {
    if s != [] {
      var init := s[..|s| - 1];
      DedupTwice(acc, init);
      if s[|s| - 1] !in Dedup(init) {
        DedupSnoc(acc, Dedup(init), s[|s| - 1]);
      }
    }
  }

  /** Where `x` first appears in `s`. */
  function FirstIndex<T(==)>(s: seq<T>, x: T): (i: nat)
    requires x in s
    ensures i < |s| && s[i] == x
    ensures forall k :: 0 <= k < i ==> s[k] != x
  {
    if s[0] == x then 0 else 1 + FirstIndex(s[1..], x)
  }

  /** What `Dedup` means: the same members, each once, in order of first appearance. */
  lemma DedupMeaning<T(!new)>(s: seq<T>)
    ensures NoRepeats(Dedup(s))
    ensures forall x :: x in Dedup(s) <==> x in s
    ensures forall i, j :: 0 <= i < j < |Dedup(s)| ==>
              FirstIndex(s, Dedup(s)[i]) < FirstIndex(s, Dedup(s)[j])
  {
    DedupNoRepeats([], s);
    DedupOrder(s);
  }

  lemma {:induction false} DedupOrder<T(!new)>(s: seq<T>)
    ensures forall i, j :: 0 <= i < j < |Dedup(s)| ==>
              FirstIndex(s, Dedup(s)[i]) < FirstIndex(s, Dedup(s)[j])
  {
    if s != [] {
      var init, x := s[..|s| - 1], s[|s| - 1];
      var d := Dedup(init);
      DedupOrder(init);
      forall k | 0 <= k < |d| ensures FirstIndex(s, d[k]) == FirstIndex(init, d[k]) < |init| {
        FirstIndexUnique(s, d[k], FirstIndex(init, d[k]));
      }
      if x !in init {
        FirstIndexUnique(s, x, |init|);
      }
    }
  }

  lemma FirstIndexUnique<T>(s: seq<T>, x: T, i: nat)
    requires i < |s| && s[i] == x
    requires forall k :: 0 <= k < i ==> s[k] != x
    ensures FirstIndex(s, x) == i
  {}
}
