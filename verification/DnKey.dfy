/** The canonical key of a distinguished name, and what equal keys mean (section 4.2.15 of RFC 4517). */
module DnKey {
  import opened Basics
  import opened Ordering
  import opened Folding

  /** One type=value pair of a relative distinguished name. */
  datatype Ava = Ava(typ: string, value: string)
  type Rdn = seq<Ava>
  type Dn = seq<Rdn>

  // ----- What it is for two names to match -----

  ghost predicate AvaMatches(a: Ava, b: Ava) {
    EqualFold(a.typ, b.typ) && EqualFold(a.value, b.value)
  }

  /** The same pairs, each as often, in any order: every pair of `r` takes a partner out of `s`. */
  ghost predicate RdnMatches(r: Rdn, s: Rdn) {
    |r| == |s| &&
    (r == [] ||
     exists j :: 0 <= j < |s| && AvaMatches(r[0], s[j]) && RdnMatches(r[1..], Without(s, j)))
  }

  function Without<T>(s: seq<T>, j: nat): seq<T>
    requires j < |s|
  {
    s[..j] + s[j + 1..]
  }

  /** distinguishedNameMatch: as many RDNs, matching position by position. */
  ghost predicate DnMatches(d: Dn, e: Dn) {
    |d| == |e| && forall i :: 0 <= i < |d| ==> RdnMatches(d[i], e[i])
  }

  // ----- The key -----

  /** binary.AppendUvarint: seven bits a byte, low bits first, the high bit set on all but the last. */
  function Uvarint(n: nat): (r: seq<Byte>) {
    if n < 0x80 then [n] else [0x80 + n % 0x80] + Uvarint(n / 0x80)
  }

  /** The UTF-8 form of a rune of two bytes or more (section 3 of RFC 3629). */
  function Utf8(c: char): seq<Byte>
    requires c as int >= 0x80
  {
    var n := c as int;
    var m := n / 0x40;
    var k := m / 0x40;
    if n < 0x800 then [0xC0 + m, 0x80 + n % 0x40]
    else if n < 0x1_0000 then [0xE0 + k, 0x80 + m % 0x40, 0x80 + n % 0x40]
    else [0xF0 + k / 0x40, 0x80 + k % 0x40, 0x80 + m % 0x40, 0x80 + n % 0x40]
  }

  function Escape(c: char): seq<Byte> {
    if c as int == 0 then [1, 2]
    else if c as int == 1 then [1, 1]
    else if (c as int) < 0x80 then [c as int]
    else Utf8(c)
  }

  function Terminated(s: string): seq<Byte> {
    if s == "" then [0] else Escape(s[0]) + Terminated(s[1..])
  }

  ghost function Field(s: string): seq<Byte> {
    Terminated(CanonAll(s))
  }

  ghost function PairKey(a: Ava): seq<Byte> {
    Field(a.typ) + Field(a.value)
  }

  ghost function PairKeys(r: Rdn): seq<seq<Byte>> {
    Map(PairKey, r)
  }

  ghost function RdnKey(r: Rdn): seq<Byte> {
    Uvarint(|r|) + Flatten(Sort(BytesLe, PairKeys(r)))
  }

  ghost function Key(d: Dn): seq<Byte> {
    if d == [] then [] else RdnKey(d[0]) + Key(d[1..])
  }

  // ----- Each piece is a prefix code: what follows it cannot be taken for part of it -----

  lemma {:induction false} UvarintPrefix(m: nat, n: nat, x: seq<Byte>, y: seq<Byte>)
    requires Uvarint(m) + x == Uvarint(n) + y
    ensures m == n && x == y
  {
    var p, q := Uvarint(m) + x, Uvarint(n) + y;
    assert p[0] == q[0];
    if m < 0x80 || n < 0x80 {
      assert x == p[1..] && y == q[1..];
    } else {
      assert p[1..] == Uvarint(m / 0x80) + x;
      assert q[1..] == Uvarint(n / 0x80) + y;
      UvarintPrefix(m / 0x80, n / 0x80, x, y);
    }
  }

  /** The first byte of a code point says how many bytes follow. */
  function CodeLength(b: Byte): nat {
    if b == 1 then 2 else if b < 0x80 then 1 else if b < 0xE0 then 2 else if b < 0xF0 then 3 else 4
  }

  lemma EscapeLength(c: char)
    ensures |Escape(c)| == CodeLength(Escape(c)[0]) && Escape(c)[0] != 0
  {}

  /** What the bytes of a code point spell. */
  function Decode(e: seq<int>): int
    requires 1 <= |e| <= 4
  {
    if |e| == 1 then e[0]
    else if |e| == 2 && e[0] == 1 then if e[1] == 2 then 0 else 1
    else if |e| == 2 then (e[0] - 0xC0) * 0x40 + (e[1] - 0x80)
    else if |e| == 3 then ((e[0] - 0xE0) * 0x40 + (e[1] - 0x80)) * 0x40 + (e[2] - 0x80)
    else (((e[0] - 0xF0) * 0x40 + (e[1] - 0x80)) * 0x40 + (e[2] - 0x80)) * 0x40 + (e[3] - 0x80)
  }

  lemma CodePointOf(c: char)
    ensures 1 <= |Escape(c)| <= 4
    ensures Decode(Escape(c)) == c as int
  {}

  lemma EscapeInjective(c: char, d: char)
    requires Escape(c) == Escape(d)
    ensures c == d
  {
    CodePointOf(c);
    CodePointOf(d);
  }

  lemma EscapePrefix(c: char, d: char, x: seq<Byte>, y: seq<Byte>)
    requires Escape(c) + x == Escape(d) + y
    ensures c == d && x == y
  {
    var p, q := Escape(c) + x, Escape(d) + y;
    EscapeLength(c);
    EscapeLength(d);
    assert p[0] == q[0];
    var n := |Escape(c)|;
    assert Escape(c) == p[..n] && Escape(d) == q[..n];
    assert x == p[n..] && y == q[n..];
    EscapeInjective(c, d);
  }

  lemma {:induction false} TerminatedPrefix(s: string, t: string, x: seq<Byte>, y: seq<Byte>)
    requires Terminated(s) + x == Terminated(t) + y
    ensures s == t && x == y
  {
    var p, q := Terminated(s) + x, Terminated(t) + y;
    if s != "" { EscapeLength(s[0]); }
    if t != "" { EscapeLength(t[0]); }
    assert p[0] == q[0];
    if s == "" || t == "" {
      assert x == p[1..] && y == q[1..];
    } else {
      Regroup(Escape(s[0]), Terminated(s[1..]), x);
      Regroup(Escape(t[0]), Terminated(t[1..]), y);
      EscapePrefix(s[0], t[0], Terminated(s[1..]) + x, Terminated(t[1..]) + y);
      TerminatedPrefix(s[1..], t[1..], x, y);
      assert s == [s[0]] + s[1..] && t == [t[0]] + t[1..];
    }
  }

  lemma PairKeyPrefix(a: Ava, b: Ava, x: seq<Byte>, y: seq<Byte>)
    requires PairKey(a) + x == PairKey(b) + y
    ensures AvaMatches(a, b) && PairKey(a) == PairKey(b) && x == y
  {
    Regroup(Field(a.typ), Field(a.value), x);
    Regroup(Field(b.typ), Field(b.value), y);
    TerminatedPrefix(CanonAll(a.typ), CanonAll(b.typ), Field(a.value) + x, Field(b.value) + y);
    TerminatedPrefix(CanonAll(a.value), CanonAll(b.value), x, y);
    CanonAllDecidesEqualFold(a.typ, b.typ);
    CanonAllDecidesEqualFold(a.value, b.value);
  }

  lemma PairKeyDecidesMatch(a: Ava, b: Ava)
    ensures PairKey(a) == PairKey(b) <==> AvaMatches(a, b)
  {
    if PairKey(a) == PairKey(b) {
      PairKeyPrefix(a, b, [], []);
    }
    CanonAllDecidesEqualFold(a.typ, b.typ);
    CanonAllDecidesEqualFold(a.value, b.value);
  }

  ghost predicate IsPairKey(p: seq<Byte>) {
    exists a: Ava :: p == PairKey(a)
  }

  lemma OnePairPrefix(p: seq<Byte>, q: seq<Byte>, x: seq<Byte>, y: seq<Byte>)
    requires IsPairKey(p) && IsPairKey(q) && p + x == q + y
    ensures p == q && x == y
  {
    var a: Ava :| p == PairKey(a);
    var b: Ava :| q == PairKey(b);
    PairKeyPrefix(a, b, x, y);
  }

  lemma {:induction false} PairListPrefix(ps: seq<seq<Byte>>, qs: seq<seq<Byte>>, x: seq<Byte>, y: seq<Byte>)
    requires |ps| == |qs|
    requires forall i :: 0 <= i < |ps| ==> IsPairKey(ps[i])
    requires forall i :: 0 <= i < |qs| ==> IsPairKey(qs[i])
    requires Flatten(ps) + x == Flatten(qs) + y
    ensures ps == qs && x == y
  {
    if ps != [] {
      var u, v := Flatten(ps[1..]) + x, Flatten(qs[1..]) + y;
      Regroup(ps[0], Flatten(ps[1..]), x);
      Regroup(qs[0], Flatten(qs[1..]), y);
      OnePairPrefix(ps[0], qs[0], u, v);
      PairListPrefix(ps[1..], qs[1..], x, y);
      assert ps == [ps[0]] + ps[1..] && qs == [qs[0]] + qs[1..];
    } else {
      assert Flatten(ps) + x == x && Flatten(qs) + y == y;
    }
  }

  lemma SortedPairKeys(r: Rdn)
    ensures |Sort(BytesLe, PairKeys(r))| == |r|
    ensures forall i :: 0 <= i < |r| ==> IsPairKey(Sort(BytesLe, PairKeys(r))[i])
  {
    var ps := Sort(BytesLe, PairKeys(r));
    SameMembers(ps, PairKeys(r));
    forall i | 0 <= i < |ps| ensures IsPairKey(ps[i]) {
      assert ps[i] in PairKeys(r);
      var j :| 0 <= j < |r| && PairKeys(r)[j] == ps[i];
      assert ps[i] == PairKey(r[j]);
    }
  }

  // ----- Equal keys are matching names -----

  lemma WithoutKeys(s: Rdn, j: nat)
    requires j < |s|
    ensures multiset(PairKeys(s)) == multiset(PairKeys(Without(s, j))) + multiset{PairKey(s[j])}
  {
    hide PairKey;
    var ks := PairKeys(s);
    assert ks == ks[..j] + [ks[j]] + ks[j + 1..];
    assert PairKeys(Without(s, j)) == ks[..j] + ks[j + 1..];
  }

  /** Pairing off the attributes one by one is comparing them as multisets of folded pairs. */
  lemma {:induction false} MatchIsSamePairs(r: Rdn, s: Rdn)
    ensures RdnMatches(r, s) <==> multiset(PairKeys(r)) == multiset(PairKeys(s))
  {
    if r == [] {
      assert multiset(PairKeys(r)) == multiset{};
      assert multiset(PairKeys(s)) == multiset{} ==> |multiset(PairKeys(s))| == 0;
    } else {
      WithoutKeys(r, 0);
      assert Without(r, 0) == r[1..];
      forall j | 0 <= j < |s|
        ensures AvaMatches(r[0], s[j]) && RdnMatches(r[1..], Without(s, j)) <==>
                PairKey(r[0]) == PairKey(s[j]) && multiset(PairKeys(r)) == multiset(PairKeys(s))
      {
        PairKeyDecidesMatch(r[0], s[j]);
        WithoutKeys(s, j);
        MatchIsSamePairs(r[1..], Without(s, j));
        if PairKey(r[0]) == PairKey(s[j]) && multiset(PairKeys(r)) == multiset(PairKeys(s)) {
          assert multiset(PairKeys(r[1..])) == multiset(PairKeys(r)) - multiset{PairKey(r[0])};
          assert multiset(PairKeys(Without(s, j))) == multiset(PairKeys(s)) - multiset{PairKey(s[j])};
        }
      }
      if multiset(PairKeys(r)) == multiset(PairKeys(s)) {
        SameMembers(PairKeys(r), PairKeys(s));
        assert PairKeys(r)[0] in PairKeys(s);
        var j :| 0 <= j < |s| && PairKeys(s)[j] == PairKeys(r)[0];
      }
    }
  }

  lemma RdnKeyPrefix(r: Rdn, s: Rdn, x: seq<Byte>, y: seq<Byte>)
    requires RdnKey(r) + x == RdnKey(s) + y
    ensures RdnMatches(r, s) && x == y
  {
    var ps, qs := Sort(BytesLe, PairKeys(r)), Sort(BytesLe, PairKeys(s));
    Regroup(Uvarint(|r|), Flatten(ps), x);
    Regroup(Uvarint(|s|), Flatten(qs), y);
    UvarintPrefix(|r|, |s|, Flatten(ps) + x, Flatten(qs) + y);
    SortedPairKeys(r);
    SortedPairKeys(s);
    PairListPrefix(ps, qs, x, y);
    MatchIsSamePairs(r, s);
  }

  lemma RdnKeyOfMatch(r: Rdn, s: Rdn)
    requires RdnMatches(r, s)
    ensures RdnKey(r) == RdnKey(s)
  {
    MatchIsSamePairs(r, s);
    BytesTotalOrder();
    SortEqual(BytesLe, PairKeys(r), PairKeys(s));
  }

  lemma MatchesFromTail(d: Dn, e: Dn)
    requires d != [] && e != []
    ensures DnMatches(d, e) <==> RdnMatches(d[0], e[0]) && DnMatches(d[1..], e[1..])
  {
    if RdnMatches(d[0], e[0]) && DnMatches(d[1..], e[1..]) {
      forall i | 0 <= i < |d| ensures RdnMatches(d[i], e[i]) {
        assert i > 0 ==> d[i] == d[1..][i - 1] && e[i] == e[1..][i - 1];
      }
    }
    if DnMatches(d, e) {
      forall i | 0 <= i < |d[1..]| ensures RdnMatches(d[1..][i], e[1..][i]) {
        assert d[1..][i] == d[i + 1] && e[1..][i] == e[i + 1];
      }
    }
  }

  /** Two names have one key exactly when they match. */
  lemma {:induction false} KeyDecidesMatch(d: Dn, e: Dn)
    ensures Key(d) == Key(e) <==> DnMatches(d, e)
  {
    if d != [] && e != [] {
      MatchesFromTail(d, e);
      KeyDecidesMatch(d[1..], e[1..]);
      if Key(d) == Key(e) {
        RdnKeyPrefix(d[0], e[0], Key(d[1..]), Key(e[1..]));
      }
      if RdnMatches(d[0], e[0]) {
        RdnKeyOfMatch(d[0], e[0]);
      }
    } else {
      KeyOfNonEmpty(d);
      KeyOfNonEmpty(e);
    }
  }

  lemma KeyOfNonEmpty(d: Dn)
    ensures Key(d) == [] <==> d == []
  {}

  // ----- Containment both ways is a coarser relation -----

  ghost predicate Contained(r: Rdn, s: Rdn) {
    forall i :: 0 <= i < |r| ==> exists j :: 0 <= j < |s| && AvaMatches(r[i], s[j])
  }

  ghost predicate SameCountAndContained(r: Rdn, s: Rdn) {
    |r| == |s| && Contained(r, s) && Contained(s, r)
  }

  ghost predicate NoPairRepeated(r: Rdn) {
    NoRepeats(PairKeys(r))
  }

  ghost predicate OnePairOnly(r: Rdn) {
    forall i, j :: 0 <= i < |r| && 0 <= j < |r| ==> PairKeys(r)[i] == PairKeys(r)[j]
  }

  lemma ContainedKeys(r: Rdn, s: Rdn)
    ensures Contained(r, s) <==> forall k :: k in PairKeys(r) ==> k in PairKeys(s)
  {
    var ks, ls := PairKeys(r), PairKeys(s);
    forall i, j | 0 <= i < |r| && 0 <= j < |s| ensures AvaMatches(r[i], s[j]) <==> ks[i] == ls[j] {
      PairKeyDecidesMatch(r[i], s[j]);
    }
    if Contained(r, s) {
      forall k | k in ks ensures k in ls {
        var i :| 0 <= i < |r| && ks[i] == k;
        var j :| 0 <= j < |s| && AvaMatches(r[i], s[j]);
        assert ls[j] == k;
      }
    }
    if forall k :: k in ks ==> k in ls {
      forall i | 0 <= i < |r| ensures exists j :: 0 <= j < |s| && AvaMatches(r[i], s[j]) {
        assert ks[i] in ls;
      }
    }
  }

  lemma SmallerOfOneSize<T>(a: multiset<T>, b: multiset<T>)
    requires a <= b && |a| == |b|
    ensures a == b
  {
    assert b == a + (b - a);
    assert |b| == |a| + |b - a|;
  }

  lemma {:induction false} CountAtMostOne<T(!new)>(s: seq<T>, x: T)
    requires NoRepeats(s)
    ensures multiset(s)[x] <= 1
  {
    if s != [] {
      HeadAndTail(s);
      CountAtMostOne(s[1..], x);
      assert s[0] == x ==> x !in multiset(s[1..]);
    }
  }

  lemma KeysLength(r: Rdn)
    ensures |PairKeys(r)| == |r|
  {}

  lemma DistinctContained(r: Rdn, s: Rdn)
    requires NoPairRepeated(r) && SameCountAndContained(r, s)
    ensures RdnMatches(r, s)
  {
    hide PairKeys, Contained, RdnMatches;
    var ks, ls := PairKeys(r), PairKeys(s);
    ContainedKeys(r, s);
    KeysLength(r);
    KeysLength(s);
    forall k ensures multiset(ks)[k] <= multiset(ls)[k] {
      CountAtMostOne(ks, k);
      assert k in multiset(ks) ==> k in ks;
      assert k in ls ==> k in multiset(ls);
    }
    SmallerOfOneSize(multiset(ks), multiset(ls));
    MatchIsSamePairs(r, s);
  }

  lemma OnePairContained(r: Rdn, s: Rdn)
    requires OnePairOnly(r) && SameCountAndContained(r, s)
    ensures RdnMatches(r, s)
  {
    var ks, ls := PairKeys(r), PairKeys(s);
    ContainedKeys(s, r);
    forall j | 0 <= j < |s| ensures ls[j] == ks[j] {
      assert ls[j] in ks;
    }
    assert ks == ls;
    MatchIsSamePairs(r, s);
  }

  lemma Overwritten<T(!new)>(ks: seq<T>, i: nat, j: nat, k: nat)
    requires i < j < |ks| && k < |ks| && ks[i] == ks[j] != ks[k]
    ensures forall x :: x in ks <==> x in ks[j := ks[k]]
    ensures multiset(ks) != multiset(ks[j := ks[k]])
  {
    var ls := ks[j := ks[k]];
    forall x | x in ks ensures x in ls {
      var n :| 0 <= n < |ks| && ks[n] == x;
      assert ls[if n == j then i else n] == x;
    }
    assert multiset(ls)[ks[j]] == multiset(ks)[ks[j]] - 1;
  }

  /** With a repeated pair and another one beside it, swapping the one for the other fools containment. */
  lemma FoolsContainment(r: Rdn, i: nat, j: nat, k: nat) returns (s: Rdn)
    requires i < j < |r| && k < |r|
    requires PairKeys(r)[i] == PairKeys(r)[j] != PairKeys(r)[k]
    ensures SameCountAndContained(r, s) && !RdnMatches(r, s)
  {
    s := r[j := r[k]];
    var ks := PairKeys(r);
    assert PairKeys(s) == ks[j := ks[k]];
    Overwritten(ks, i, j, k);
    ContainedKeys(r, s);
    ContainedKeys(s, r);
    MatchIsSamePairs(r, s);
  }

  /** Comparing by count and containment both ways is the matching rule for exactly the RDNs that
      repeat no pair, or hold only one. */
  lemma ContainmentExact(r: Rdn)
    ensures (forall s: Rdn :: SameCountAndContained(r, s) ==> RdnMatches(r, s)) <==>
            NoPairRepeated(r) || OnePairOnly(r)
  {
    if NoPairRepeated(r) {
      forall s: Rdn | SameCountAndContained(r, s) ensures RdnMatches(r, s) { DistinctContained(r, s); }
    } else if OnePairOnly(r) {
      forall s: Rdn | SameCountAndContained(r, s) ensures RdnMatches(r, s) { OnePairContained(r, s); }
    } else {
      var ks := PairKeys(r);
      var i, j :| 0 <= i < j < |ks| && ks[i] == ks[j];
      var m, n :| 0 <= m < |r| && 0 <= n < |r| && ks[m] != ks[n];
      var s := FoolsContainment(r, i, j, if ks[m] == ks[i] then n else m);
    }
  }

  /** The other direction never fails. */
  lemma MatchIsContained(r: Rdn, s: Rdn)
    requires RdnMatches(r, s)
    ensures SameCountAndContained(r, s)
  {
    MatchIsSamePairs(r, s);
    SameMembers(PairKeys(r), PairKeys(s));
    ContainedKeys(r, s);
    ContainedKeys(s, r);
  }

  // ----- The code that builds it -----

  method AppendField(dst: seq<Byte>, s: string) returns (out: seq<Byte>)
    ensures out == dst + Field(s)
  {
    out := dst;
    ghost var cs := CanonAll(s);
    for i := 0 to |s|
      invariant out + Terminated(cs[i..]) == dst + Terminated(cs)
    {
      var r := CanonOf(s[i]);
      assert cs[i..][0] == r && cs[i..][1..] == cs[i + 1..];
      assert out + Terminated(cs[i..]) == (out + Escape(r)) + Terminated(cs[i + 1..]);
      if r as int == 0 {
        out := out + [1, 2];
      } else if r as int == 1 {
        out := out + [1, 1];
      } else if (r as int) < 0x80 {
        out := out + [r as int];
      } else {
        out := out + Utf8(r);
      }
    }
    out := out + [0];
  }

  method AppendPair(dst: seq<Byte>, a: Ava) returns (out: seq<Byte>)
    ensures out == dst + PairKey(a)
  {
    out := AppendField(dst, a.typ);
    out := AppendField(out, a.value);
  }

  method AppendAll(dst: seq<Byte>, pairs: seq<seq<Byte>>) returns (out: seq<Byte>)
    ensures out == dst + Flatten(pairs)
  {
    out := dst;
    for j := 0 to |pairs|
      invariant out + Flatten(pairs[j..]) == dst + Flatten(pairs)
    {
      assert pairs[j..][0] == pairs[j] && pairs[j..][1..] == pairs[j + 1..];
      Regroup(out, pairs[j], Flatten(pairs[j + 1..]));
      out := out + pairs[j];
    }
    assert Flatten(pairs[|pairs|..]) == [];
  }

  method AppendRdn(dst: seq<Byte>, rdn: Rdn) returns (out: seq<Byte>)
    ensures out == dst + RdnKey(rdn)
  {
    out := dst + Uvarint(|rdn|);
    if |rdn| == 1 {
      OnePair(rdn);
      Regroup(dst, Uvarint(1), PairKey(rdn[0]));
      out := AppendPair(out, rdn[0]);
      return;
    }
    var pairs: seq<seq<Byte>> := [];
    for j := 0 to |rdn|
      invariant |pairs| == j && forall k :: 0 <= k < j ==> pairs[k] == PairKey(rdn[k])
    {
      var p := AppendPair([], rdn[j]);
      pairs := pairs + [p];
    }
    assert pairs == PairKeys(rdn);
    Regroup(dst, Uvarint(|rdn|), Flatten(Sort(BytesLe, pairs)));
    out := AppendAll(out, Sort(BytesLe, pairs));
  }

  method AppendDnKey(dst: seq<Byte>, dn: Dn) returns (out: seq<Byte>)
    ensures out == dst + Key(dn)
  {
    out := dst;
    for i := 0 to |dn|
      invariant out + Key(dn[i..]) == dst + Key(dn)
    {
      assert dn[i..][0] == dn[i] && dn[i..][1..] == dn[i + 1..];
      Regroup(out, RdnKey(dn[i]), Key(dn[i + 1..]));
      out := AppendRdn(out, dn[i]);
    }
    assert Key(dn[|dn|..]) == [];
  }

  /** With one attribute there is nothing to sort: the fast path writes what the other would. */
  lemma OnePair(r: Rdn)
    requires |r| == 1
    ensures RdnKey(r) == Uvarint(1) + PairKey(r[0])
  {
    assert PairKeys(r) == [PairKey(r[0])];
    assert Sort(BytesLe, PairKeys(r)) == PairKeys(r);
    assert Flatten(PairKeys(r)) == PairKey(r[0]);
  }
}
