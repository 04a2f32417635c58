/** Simple case folding: unicode.SimpleFold, strings.EqualFold and the smallest rune of an orbit. */
module Folding {
  import opened Basics

  ghost predicate Injective(f: char -> char) {
    forall a: char, b: char :: f(a) == f(b) ==> a == b
  }

  function Same(c: char): char { c }

  function Iterate(f: char -> char, k: nat, r: char): char {
    if k == 0 then r else f(Iterate(f, k - 1, r))
  }

  /** Within ASCII, only the two cases of a letter are on one orbit. */
  ghost predicate KeepsAscii(f: char -> char) {
    forall k: nat, c: char {:trigger Iterate(f, k, c)} ::
      c as int < 0x80 && Iterate(f, k, c) as int < 0x80 ==> AsciiLower(Iterate(f, k, c)) == AsciiLower(c)
  }

  lemma {:induction false} StaysSame(k: nat, c: char)
    ensures Iterate(Same, k, c) == c
  {
    if k > 0 {
      StaysSame(k - 1, c);
    }
  }

  lemma SameIsTable()
    ensures Injective(Same) && KeepsAscii(Same)
  {
    forall k: nat, c: char ensures Iterate(Same, k, c) == c { StaysSame(k, c); }
  }

  type FoldTable = f: char -> char | Injective(f) && KeepsAscii(f) witness (SameIsTable(); Same)

  /** unicode.SimpleFold. Nothing is known of the table but that it permutes the runes and what it keeps apart. */
  const SIMPLE_FOLD: FoldTable

  /** The rune reached from `r` by `k` steps of the table. */
  function Steps(k: nat, r: char): char {
    if k == 0 then r else SIMPLE_FOLD(Steps(k - 1, r))
  }

  lemma {:induction false} StepsIterate(k: nat, r: char)
    ensures Steps(k, r) == Iterate(SIMPLE_FOLD, k, r)
  {
    if k > 0 {
      StepsIterate(k - 1, r);
    }
  }

  lemma AsciiOrbit(r: char, s: char)
    requires SameOrbit(r, s) && r as int < 0x80 && s as int < 0x80
    ensures AsciiLower(r) == AsciiLower(s)
  {
    var k: nat :| Steps(k, r) == s;
    StepsIterate(k, r);
  }

  ghost predicate SameOrbit(r: char, s: char) {
    exists k: nat :: Steps(k, r) == s
  }

  /** strings.EqualFold: as many runes, each on the orbit of its counterpart. */
  ghost predicate EqualFold(a: string, b: string) {
    |a| == |b| && forall i :: 0 <= i < |a| ==> SameOrbit(a[i], b[i])
  }

  ghost predicate IsSmallest(r: char, m: char) {
    SameOrbit(r, m) && forall s: char :: SameOrbit(r, s) ==> m <= s
  }

  lemma {:induction false} SmallestExists(r: char, s: char)
    requires SameOrbit(r, s)
    ensures exists m :: IsSmallest(r, m)
    decreases s as int
  {
    if t: char :| SameOrbit(r, t) && t < s {
      SmallestExists(r, t);
    } else {
      assert IsSmallest(r, s);
    }
  }

  /** The smallest rune equal to `r` under simple case folding. */
  ghost function Canon(r: char): (m: char)
    ensures IsSmallest(r, m)
  {
    assert Steps(0, r) == r;
    SmallestExists(r, r);
    var m :| IsSmallest(r, m);
    m
  }

  ghost function CanonAll(s: string): (t: string)
    ensures |t| == |s|
    ensures forall i :: 0 <= i < |s| ==> t[i] == Canon(s[i])
  {
    seq(|s|, i requires 0 <= i < |s| => Canon(s[i]))
  }

  ghost predicate IsRune(c: char) {
    0 <= c as int < 0x11_0000
  }

  ghost function AllRunes(): set<char> {
    set c: char | IsRune(c)
  }

  /** The first `n` runes of the walk that `canon` takes from `r`. */
  ghost function Visited(r: char, n: nat): set<char> {
    set k | 0 <= k < n :: Steps(k, r)
  }

  ghost predicate Distinct(r: char, n: nat) {
    forall i, j :: 0 <= i < j < n ==> Steps(i, r) != Steps(j, r)
  }

  /** The walk meets no rune twice before it is back at `r`: the table is injective. */
  lemma WalkGoesOn(r: char, n: nat)
    requires n > 0 && Distinct(r, n) && Steps(n, r) != r
    ensures Distinct(r, n + 1)
    ensures AllRunes() - Visited(r, n + 1) < AllRunes() - Visited(r, n)
  {
    forall i | 0 <= i < n ensures Steps(i, r) != Steps(n, r) {
      if i > 0 {
        assert Steps(i - 1, r) != Steps(n - 1, r);
      }
    }
    assert Steps(n, r) in Visited(r, n + 1) && Steps(n, r) !in Visited(r, n);
  }

  /** So it comes back. */
  lemma {:induction false} Period(r: char, n: nat) returns (p: nat)
    requires n > 0 && Distinct(r, n)
    ensures p > 0 && Steps(p, r) == r
    decreases AllRunes() - Visited(r, n)
  {
    if Steps(n, r) == r {
      p := n;
    } else {
      WalkGoesOn(r, n);
      p := Period(r, n + 1);
    }
  }

  lemma {:induction false} StepsAdd(j: nat, k: nat, r: char)
    ensures Steps(j, Steps(k, r)) == Steps(j + k, r)
  {
    if j > 0 {
      StepsAdd(j - 1, k, r);
    }
  }

  lemma SameOrbitTransitive(r: char, s: char, t: char)
    requires SameOrbit(r, s) && SameOrbit(s, t)
    ensures SameOrbit(r, t)
  {
    var k: nat :| Steps(k, r) == s;
    var j: nat :| Steps(j, s) == t;
    StepsAdd(j, k, r);
  }

  lemma {:induction false} WayBack(k: nat, r: char)
    ensures SameOrbit(Steps(k, r), r)
  {
    if k == 0 {
      assert Steps(0, r) == r;
    } else {
      var s := Steps(k - 1, r);
      var p := Period(s, 1);
      StepsAdd(p - 1, 1, s);
      assert Steps(1, s) == SIMPLE_FOLD(Steps(0, s));
      assert SameOrbit(Steps(k, r), s);
      WayBack(k - 1, r);
      SameOrbitTransitive(Steps(k, r), s, r);
    }
  }

  lemma SameOrbitSymmetric(r: char, s: char)
    requires SameOrbit(r, s)
    ensures SameOrbit(s, r)
  {
    var k: nat :| Steps(k, r) == s;
    WayBack(k, r);
  }

  /** Two runes have one canonical rune exactly when they lie on one fold orbit. */
  lemma CanonDecidesOrbit(r: char, s: char)
    ensures Canon(r) == Canon(s) <==> SameOrbit(r, s)
  {
    if Canon(r) == Canon(s) {
      SameOrbitSymmetric(s, Canon(s));
      SameOrbitTransitive(r, Canon(r), s);
    }
    if SameOrbit(r, s) {
      SameOrbitSymmetric(r, s);
      SameOrbitTransitive(r, s, Canon(s));
      SameOrbitTransitive(s, r, Canon(r));
    }
  }

  lemma CanonAllDecidesEqualFold(a: string, b: string)
    ensures CanonAll(a) == CanonAll(b) <==> EqualFold(a, b)
  {
    forall i | 0 <= i < |a| && |a| == |b| ensures Canon(a[i]) == Canon(b[i]) <==> SameOrbit(a[i], b[i]) {
      CanonDecidesOrbit(a[i], b[i]);
    }
    if CanonAll(a) == CanonAll(b) {
      assert |a| == |b|;
      forall i | 0 <= i < |a| ensures SameOrbit(a[i], b[i]) {
        assert CanonAll(a)[i] == CanonAll(b)[i];
      }
    }
  }

  /** Once the walk is back, it has met the whole orbit. */
  lemma {:induction false} WholeOrbitVisited(r: char, n: nat, k: nat)
    requires n > 0 && Steps(n, r) == r
    ensures Steps(k, r) in Visited(r, n)
  {
    if k >= n {
      StepsAdd(k - n, n, r);
      WholeOrbitVisited(r, n, k - n);
    }
  }

  method CanonOf(r: char) returns (m: char)
    ensures m == Canon(r)
  {
    m := r;
    var f := SIMPLE_FOLD(r);
    ghost var n: nat := 1;
    assert Steps(0, r) == r && Steps(1, r) == SIMPLE_FOLD(Steps(0, r));
    while f != r
      invariant n > 0 && f == Steps(n, r) && Distinct(r, n)
      invariant m in Visited(r, n) && forall s :: s in Visited(r, n) ==> m <= s
      decreases AllRunes() - Visited(r, n)
    {
      WalkGoesOn(r, n);
      assert Visited(r, n + 1) == Visited(r, n) + {f};
      if f < m {
        m := f;
      }
      f := SIMPLE_FOLD(f);
      n := n + 1;
    }
    forall s: char | SameOrbit(r, s) ensures m <= s {
      var k: nat :| Steps(k, r) == s;
      WholeOrbitVisited(r, n, k);
    }
    assert IsSmallest(r, m);
  }

  /** strings.EqualFold as the code reads it: rune by rune. */
  method EqualFoldText(a: string, b: string) returns (same: bool)
    ensures same == EqualFold(a, b)
  {
    if |a| != |b| {
      return false;
    }
    for i := 0 to |a|
      invariant forall j :: 0 <= j < i ==> SameOrbit(a[j], b[j])
    {
      var x := CanonOf(a[i]);
      var y := CanonOf(b[i]);
      CanonDecidesOrbit(a[i], b[i]);
      if x != y {
        return false;
      }
    }
    return true;
  }
}
