/** What a source says about somebody that proves nothing: attributes.go. */
module AttributeLists {
  import opened Basics
  import opened Faults
  import opened AttributeNames

  datatype Attribute = Attribute(name: string, values: seq<string>)

  /** The canonical names, in order. */
  function Keys(l: seq<Attribute>): (ks: seq<string>)
    ensures |ks| == |l|
    ensures forall i :: 0 <= i < |l| ==> ks[i] == Canonical(l[i].name)
  {
    Map((a: Attribute) => Canonical(a.name), l)
  }

  /** No two attributes equivalent, no value twice: what every built list keeps. */
  ghost predicate WellFormed(l: seq<Attribute>) {
    NoRepeats(Keys(l)) && forall i :: 0 <= i < |l| ==> NoRepeats(l[i].values)
  }

  /** An Attributes as a value, once built. */
  type Attrs = l: seq<Attribute> | WellFormed(l) witness []

  /** The values given under an equivalent name, or none. */
  function ValuesUnder(l: seq<Attribute>, key: string): seq<string> {
    if key in Keys(l) then l[FirstIndex(Keys(l), key)].values else []
  }

  /** `l` after `values` are added under `name`. */
  function AddTo(l: seq<Attribute>, name: string, values: seq<string>): seq<Attribute> {
    var key := Canonical(name);
    if key in Keys(l) then
      var i := FirstIndex(Keys(l), key);
      l[i := Attribute(l[i].name, DedupOnto(l[i].values, values))]
    else
      l + [Attribute(name, Dedup(values))]
  }

  function AddAll(l: seq<Attribute>, attrs: seq<Attribute>): seq<Attribute> {
    if attrs == [] then l else
      var last := attrs[|attrs| - 1];
      AddTo(AddAll(l, attrs[..|attrs| - 1]), last.name, last.values)
  }

  /** Every value given under a name equivalent to `key`, in the order given. */
  function Gathered(attrs: seq<Attribute>, key: string): seq<string> {
    if attrs == [] then [] else
      var last := attrs[|attrs| - 1];
      Gathered(attrs[..|attrs| - 1], key) + (if Canonical(last.name) == key then last.values else [])
  }

  /** The first attribute refused decides: its name before its values. */
  function FirstRefusal(attrs: seq<Attribute>): Option<Fault> {
    if attrs == [] then None
    else if !Accepts(attrs[0].name) then Some(AttributeName)
    else if attrs[0].values == [] || "" in attrs[0].values then Some(AttributeValue)
    else FirstRefusal(attrs[1..])
  }

  /** `a`, then what `b` has and `a` does not: the first source to give an attribute owns it. */
  function UnderOf(a: seq<Attribute>, b: seq<Attribute>): seq<Attribute> {
    a + Filter((x: Attribute) => Canonical(x.name) !in Keys(a), b)
  }

  // ----- Adding -----

  lemma KeysAfterAdd(l: seq<Attribute>, name: string, values: seq<string>)
    ensures Keys(AddTo(l, name, values)) ==
            if Canonical(name) in Keys(l) then Keys(l) else Keys(l) + [Canonical(name)]
  {}

  lemma {:induction false} AddKeepsWellFormed(l: seq<Attribute>, name: string, values: seq<string>)
    requires WellFormed(l)
    ensures WellFormed(AddTo(l, name, values))
  {
    var key := Canonical(name);
    KeysAfterAdd(l, name, values);
    if key in Keys(l) {
      DedupNoRepeats(l[FirstIndex(Keys(l), key)].values, values);
    } else {
      DedupNoRepeats([], values);
    }
  }

  /** Adding touches the values of one attribute and no other. */
  lemma ValuesAfterAdd(l: seq<Attribute>, name: string, values: seq<string>, key: string)
    requires WellFormed(l)
    ensures ValuesUnder(AddTo(l, name, values), key) ==
            if key == Canonical(name) then DedupOnto(ValuesUnder(l, key), values) else ValuesUnder(l, key)
  {
    KeysAfterAdd(l, name, values);
    var ks, after := Keys(l), Keys(AddTo(l, name, values));
    if key in ks {
      FirstIndexUnique(after, key, FirstIndex(ks, key));
    } else if key == Canonical(name) {
      FirstIndexUnique(after, key, |ks|);
    }
  }

  lemma {:induction false} AddAllWellFormed(l: seq<Attribute>, attrs: seq<Attribute>)
    requires WellFormed(l)
    ensures WellFormed(AddAll(l, attrs))
  {
    if attrs != [] {
      var init, last := attrs[..|attrs| - 1], attrs[|attrs| - 1];
      AddAllWellFormed(l, init);
      AddKeepsWellFormed(AddAll(l, init), last.name, last.values);
    }
  }

  lemma AddAllSnoc(l: seq<Attribute>, attrs: seq<Attribute>, a: Attribute)
    ensures AddAll(l, attrs + [a]) == AddTo(AddAll(l, attrs), a.name, a.values)
  {
    assert (attrs + [a])[..|attrs|] == attrs;
  }

  /** What `Get` answers after any run of `add`: the values given under equivalent names, once each. */
  lemma {:induction false} ValuesAfterAddAll(l: seq<Attribute>, attrs: seq<Attribute>, key: string)
    requires WellFormed(l)
    ensures ValuesUnder(AddAll(l, attrs), key) == DedupOnto(ValuesUnder(l, key), Gathered(attrs, key))
  {
    if attrs != [] {
      var init, last := attrs[..|attrs| - 1], attrs[|attrs| - 1];
      ValuesAfterAddAll(l, init, key);
      AddAllWellFormed(l, init);
      ValuesAfterAdd(AddAll(l, init), last.name, last.values, key);
      DedupConcat(ValuesUnder(l, key), Gathered(init, key), last.values);
      assert Gathered(init, key) + [] == Gathered(init, key);
    }
  }

  /** The attributes come in the order their names first appear. */
  lemma {:induction false} KeysAfterAddAll(l: seq<Attribute>, attrs: seq<Attribute>)
    ensures Keys(AddAll(l, attrs)) == DedupOnto(Keys(l), Keys(attrs))
  {
    hide Canonical, Keys, AddTo, DedupOnto;
    if attrs == [] {
      NoKeys();
      DedupNothing(Keys(l));
    } else {
      var init, last := attrs[..|attrs| - 1], attrs[|attrs| - 1];
      KeysAfterAddAll(l, init);
      KeysAfterAdd(AddAll(l, init), last.name, last.values);
      KeysConcat(init, [last]);
      assert attrs == init + [last] && Keys([last]) == [Canonical(last.name)];
      DedupSnoc(Keys(l), Keys(init), Canonical(last.name));
    }
  }

  /** The name kept for a key: the first one given under it. */
  function FirstName(attrs: seq<Attribute>, key: string): string
    requires key in Keys(attrs)
  {
    attrs[FirstIndex(Keys(attrs), key)].name
  }

  lemma FirstNameInConcat(a: seq<Attribute>, b: seq<Attribute>, key: string)
    requires key in Keys(a) || key in Keys(b)
    ensures key in Keys(a + b)
    ensures FirstName(a + b, key) == if key in Keys(a) then FirstName(a, key) else FirstName(b, key)
  {
    hide Canonical, Keys;
    KeysConcat(a, b);
    FirstIndexInConcat(Keys(a), Keys(b), key);
  }

  lemma KeysConcat(a: seq<Attribute>, b: seq<Attribute>)
    ensures Keys(a + b) == Keys(a) + Keys(b)
  {
    hide Canonical;
    MapConcat((x: Attribute) => Canonical(x.name), a, b);
  }

  lemma FirstIndexInConcat<T>(a: seq<T>, b: seq<T>, x: T)
    requires x in a || x in b
    ensures FirstIndex(a + b, x) == if x in a then FirstIndex(a, x) else |a| + FirstIndex(b, x)
  {
    FirstIndexUnique(a + b, x, if x in a then FirstIndex(a, x) else |a| + FirstIndex(b, x));
  }

  ghost predicate SpelledFirst(out: seq<Attribute>, attrs: seq<Attribute>) {
    forall i :: 0 <= i < |out| ==> Keys(out)[i] in Keys(attrs) && out[i].name == FirstName(attrs, Keys(out)[i])
  }

  /** Each is spelled the first way it was given. */
  lemma {:induction false} NamesAfterAddAll(attrs: seq<Attribute>)
    ensures SpelledFirst(AddAll([], attrs), attrs)
  {
    hide Canonical, Keys, FirstName;
    if attrs != [] {
      var init, last := attrs[..|attrs| - 1], attrs[|attrs| - 1];
      NamesAfterAddAll(init);
      KeysAfterAddAll([], init);
      NoKeys();
      NamesAfterAdd(AddAll([], init), init, last);
      assert attrs == init + [last];
    }
  }

  lemma NoKeys()
    ensures Keys([]) == []
  {}

  lemma NamesAfterAdd(out: seq<Attribute>, attrs: seq<Attribute>, a: Attribute)
    requires SpelledFirst(out, attrs) && Keys(out) == Dedup(Keys(attrs))
    ensures SpelledFirst(AddTo(out, a.name, a.values), attrs + [a])
  {
    hide Canonical, Keys, FirstName;
    var key, more := Canonical(a.name), AddTo(out, a.name, a.values);
    KeysConcat(attrs, [a]);
    KeysAfterAdd(out, a.name, a.values);
    assert Keys([a]) == [key];
    forall i | 0 <= i < |more|
      ensures Keys(more)[i] in Keys(attrs + [a]) && more[i].name == FirstName(attrs + [a], Keys(more)[i])
    {
      FirstNameInConcat(attrs, [a], Keys(more)[i]);
      if i == |out| {
        FirstNameOfOne(a);
      }
    }
  }

  lemma FirstNameOfOne(a: Attribute)
    ensures Canonical(a.name) in Keys([a]) && FirstName([a], Canonical(a.name)) == a.name
  {
    hide Canonical;
    assert Keys([a])[0] == Canonical(a.name);
  }

  /** A well-formed list is what its names and the values under them say. */
  lemma ListUnique(a: seq<Attribute>, b: seq<Attribute>)
    requires WellFormed(a) && WellFormed(b) && |a| == |b|
    requires forall i :: 0 <= i < |a| ==> a[i].name == b[i].name
    requires forall key :: key in Keys(a) ==> ValuesUnder(a, key) == ValuesUnder(b, key)
    ensures a == b
  {
    assert Keys(a) == Keys(b);
    forall i | 0 <= i < |a| ensures a[i] == b[i] {
      var key := Keys(a)[i];
      FirstIndexUnique(Keys(a), key, i);
      assert ValuesUnder(a, key) == a[i].values && ValuesUnder(b, key) == b[i].values;
    }
  }

  lemma {:induction false} GatheredConcat(a: seq<Attribute>, b: seq<Attribute>, key: string)
    ensures Gathered(a + b, key) == Gathered(a, key) + Gathered(b, key)
  {
    hide Canonical;
    if b == [] {
      assert a + b == a;
    } else {
      var init, last := b[..|b| - 1], b[|b| - 1];
      GatheredConcat(a, init, key);
      assert (a + b)[..|a + b| - 1] == a + init && (a + b)[|a + b| - 1] == last;
      Regroup(Gathered(a, key), Gathered(init, key), if Canonical(last.name) == key then last.values else []);
    }
  }

  /** Of a well-formed list, the values gathered are the ones found. */
  lemma {:induction false} GatheredOfList(l: seq<Attribute>, key: string)
    requires WellFormed(l)
    ensures Gathered(l, key) == ValuesUnder(l, key)
  {
    hide Canonical;
    if l != [] {
      var init, last := l[..|l| - 1], l[|l| - 1];
      assert Keys(l) == Keys(init) + [Canonical(last.name)];
      assert Canonical(last.name) == Keys(l)[|init|];
      assert WellFormed(init) by {
        assert forall i :: 0 <= i < |init| ==> Keys(init)[i] == Keys(l)[i];
      }
      GatheredOfList(init, key);
      if key in Keys(init) {
        FirstIndexUnique(Keys(l), key, FirstIndex(Keys(init), key));
        assert Keys(l)[FirstIndex(Keys(init), key)] == key;
      } else if key == Canonical(last.name) {
        FirstIndexUnique(Keys(l), key, |init|);
      }
    }
  }

  // ----- Merging -----

  lemma UnderKeys(a: Attrs, b: Attrs)
    ensures WellFormed(UnderOf(a, b))
    ensures forall k :: k in Keys(UnderOf(a, b)) <==> k in Keys(a) || k in Keys(b)
  {
    UnderInduct(a, b, |b|);
    assert b[..|b|] == b && Keys(b)[..|b|] == Keys(b);
  }

  lemma AppendFresh(l: seq<Attribute>, x: Attribute)
    requires WellFormed(l) && Canonical(x.name) !in Keys(l) && NoRepeats(x.values)
    ensures Keys(l + [x]) == Keys(l) + [Canonical(x.name)]
    ensures WellFormed(l + [x])
  {
    hide Canonical, Keys;
    KeysConcat(l, [x]);
    assert Keys([x]) == [Canonical(x.name)];
  }

  lemma {:induction false} UnderInduct(a: Attrs, b: Attrs, n: nat)
    requires n <= |b|
    ensures WellFormed(UnderOf(a, b[..n]))
    ensures forall k :: k in Keys(UnderOf(a, b[..n])) <==> k in Keys(a) || k in Keys(b)[..n]
  {
    hide Canonical, Keys, UnderOf, WellFormed;
    if n == 0 {
      UnderNothing(a);
      assert b[..0] == [];
    } else {
      UnderInduct(a, b, n - 1);
      UnderSnoc(a, b, n - 1);
      KeyIsFresh(b, n - 1);
      var mid, x := UnderOf(a, b[..n - 1]), b[n - 1];
      if Canonical(x.name) !in Keys(a) {
        AppendFresh(mid, x);
      }
    }
  }

  lemma UnderNothing(a: seq<Attribute>)
    ensures UnderOf(a, []) == a
  {}

  lemma KeyIsFresh(b: Attrs, n: nat)
    requires n < |b|
    ensures Canonical(b[n].name) !in Keys(b)[..n] && NoRepeats(b[n].values)
    ensures Keys(b)[..n + 1] == Keys(b)[..n] + [Canonical(b[n].name)]
  {
    hide Canonical, Keys;
    assert Keys(b)[n] == Canonical(b[n].name);
  }

  lemma UnderSnoc(a: Attrs, b: Attrs, n: nat)
    requires n < |b|
    ensures UnderOf(a, b[..n + 1]) ==
            if Canonical(b[n].name) in Keys(a) then UnderOf(a, b[..n]) else UnderOf(a, b[..n]) + [b[n]]
  {
    assert b[..n + 1][..n] == b[..n];
  }

  /** Merged, the names stand in the order of the first list and then the second, each where it first appears. */
  lemma UnderOrder(a: Attrs, b: Attrs)
    ensures Keys(UnderOf(a, b)) == Dedup(Keys(a) + Keys(b))
  {
    UnderOrderTo(a, b, |b|);
    assert b[..|b|] == b && Keys(b)[..|b|] == Keys(b);
  }

  lemma {:induction false} UnderOrderTo(a: Attrs, b: Attrs, n: nat)
    requires n <= |b|
    ensures Keys(UnderOf(a, b[..n])) == Dedup(Keys(a) + Keys(b)[..n])
  {
    hide Canonical, Keys, UnderOf, DedupOnto;
    if n == 0 {
      UnderNothing(a);
      assert b[..0] == [] && Keys(a) + Keys(b)[..0] == Keys(a);
      DedupOfDistinct(Keys(a));
    } else {
      UnderOrderTo(a, b, n - 1);
      UnderOrderStep(a, b, n - 1);
    }
  }

  lemma UnderOrderStep(a: Attrs, b: Attrs, n: nat)
    requires n < |b| && Keys(UnderOf(a, b[..n])) == Dedup(Keys(a) + Keys(b)[..n])
    ensures Keys(UnderOf(a, b[..n + 1])) == Dedup(Keys(a) + Keys(b)[..n + 1])
  {
    hide Canonical, Keys, UnderOf, DedupOnto, WellFormed;
    var mid, x, before := UnderOf(a, b[..n]), b[n], Keys(a) + Keys(b)[..n];
    UnderSnoc(a, b, n);
    KeyIsFresh(b, n);
    KeysConcat(mid, [x]);
    OneKey(x);
    DedupSnoc([], before, Canonical(x.name));
    assert Keys(a) + Keys(b)[..n + 1] == before + [Canonical(x.name)];
    assert Canonical(x.name) in before <==> Canonical(x.name) in Keys(a);
  }

  lemma OneKey(x: Attribute)
    ensures Keys([x]) == [Canonical(x.name)]
  {}

  /** For every name, the values are those of the first list that gives it. */
  lemma UnderOwner(a: Attrs, b: Attrs, key: string)
    ensures ValuesUnder(UnderOf(a, b), key) == if key in Keys(a) then ValuesUnder(a, key) else ValuesUnder(b, key)
  {
    hide Canonical;
    UnderKeys(a, b);
    var out := UnderOf(a, b);
    var rest := Filter((x: Attribute) => Canonical(x.name) !in Keys(a), b);
    assert Keys(out) == Keys(a) + Keys(rest);
    if key in Keys(a) {
      FirstIndexUnique(Keys(out), key, FirstIndex(Keys(a), key));
    } else if key in Keys(b) {
      var i := FirstIndex(Keys(out), key);
      assert out[i] == rest[i - |a|] && rest[i - |a|] in b;
      var j :| 0 <= j < |b| && b[j] == out[i];
      assert Keys(b)[j] == key;
      FirstIndexUnique(Keys(b), key, j);
    }
  }

  lemma {:induction false} FilterNested(a: Attrs, b: Attrs, c: seq<Attribute>)
    ensures Filter((x: Attribute) => Canonical(x.name) !in Keys(UnderOf(a, b)), c) ==
            Filter((x: Attribute) => Canonical(x.name) !in Keys(a),
                   Filter((x: Attribute) => Canonical(x.name) !in Keys(b), c))
  {
    hide Canonical;
    UnderKeys(a, b);
    if c != [] {
      FilterNested(a, b, c[..|c| - 1]);
    }
  }

  /** Merging is associative, and the empty list is its unit. */
  lemma UnderAssociative(a: Attrs, b: Attrs, c: Attrs)
    ensures UnderOf(UnderOf(a, b), c) == UnderOf(a, UnderOf(b, c))
  {
    hide Canonical;
    hide UnderOf;
    FilterNested(a, b, c);
    var missing := (x: Attribute) => Canonical(x.name) !in Keys(a);
    var fromC := Filter((x: Attribute) => Canonical(x.name) !in Keys(b), c);
    UnderParts(UnderOf(a, b), c);
    UnderParts(a, b);
    UnderParts(a, UnderOf(b, c));
    UnderParts(b, c);
    FilterConcat(missing, b, fromC);
    Regroup(a, Filter(missing, b), Filter(missing, fromC));
  }

  lemma UnderParts(a: seq<Attribute>, b: seq<Attribute>)
    ensures UnderOf(a, b) == a + Filter((x: Attribute) => Canonical(x.name) !in Keys(a), b)
  {}

  lemma {:induction false} UnderUnit(a: Attrs)
    ensures UnderOf(a, []) == a
    ensures UnderOf([], a) == a
  {
    FilterAll(a);
  }

  lemma {:induction false} FilterAll(a: seq<Attribute>)
    ensures Filter((x: Attribute) => Canonical(x.name) !in Keys([]), a) == a
  {
    hide Canonical;
    if a != [] {
      FilterAll(a[..|a| - 1]);
    }
  }

  // ----- Adding a built list is adding what it was built from -----

  lemma {:induction false} AddAllConcat(l: seq<Attribute>, a: seq<Attribute>, b: seq<Attribute>)
    ensures AddAll(l, a + b) == AddAll(AddAll(l, a), b)
  {
    hide Canonical, AddTo;
    if b == [] {
      assert a + b == a;
    } else {
      var init, last := b[..|b| - 1], b[|b| - 1];
      AddAllConcat(l, a, init);
      AddAllSnoc(l, a + init, last);
      AddAllSnoc(AddAll(l, a), init, last);
      assert a + b == (a + init) + [last] && b == init + [last];
    }
  }

  /** A built list, built again, is itself. */
  lemma {:induction false} AddAllOfBuilt(l: Attrs)
    ensures AddAll([], l) == l
  {
    hide Canonical;
    AddAllWellFormed([], l);
    KeysAfterAddAll([], l);
    DedupOfDistinct(Keys(l));
    NamesAfterAddAll(l);
    NoKeys();
    forall i | 0 <= i < |l| ensures AddAll([], l)[i].name == l[i].name {
      FirstIndexUnique(Keys(l), Keys(l)[i], i);
    }
    forall key | key in Keys(l) ensures ValuesUnder(AddAll([], l), key) == ValuesUnder(l, key) {
      ValuesAfterAddAll([], l, key);
      GatheredOfList(l, key);
      DedupOfDistinct(ValuesUnder(l, key));
    }
    ListUnique(AddAll([], l), l);
  }

  lemma KeysOfBuilt(l: seq<Attribute>, more: seq<Attribute>)
    ensures Keys(AddAll([], l + AddAll([], more))) == Keys(AddAll([], l + more))
    ensures Keys(AddAll([], more)) == Dedup(Keys(more))
  {
    hide Canonical, Keys, AddAll;
    var built := AddAll([], more);
    KeysAfterAddAll([], l + built);
    KeysAfterAddAll([], l + more);
    KeysAfterAddAll([], more);
    NoKeys();
    KeysConcat(l, built);
    KeysConcat(l, more);
    DedupConcat([], Keys(l), Keys(built));
    DedupConcat([], Keys(l), Keys(more));
    DedupTwice(Dedup(Keys(l)), Keys(more));
  }

  lemma ValuesOfBuilt(l: seq<Attribute>, more: seq<Attribute>, key: string)
    ensures ValuesUnder(AddAll([], l + AddAll([], more)), key) == ValuesUnder(AddAll([], l + more), key)
  {
    hide Canonical;
    var built := AddAll([], more);
    ValuesAfterAddAll([], l + built, key);
    ValuesAfterAddAll([], l + more, key);
    ValuesAfterAddAll([], more, key);
    GatheredConcat(l, built, key);
    GatheredConcat(l, more, key);
    AddAllWellFormed([], more);
    GatheredOfList(built, key);
    DedupConcat([], Gathered(l, key), Gathered(built, key));
    DedupConcat([], Gathered(l, key), Gathered(more, key));
    DedupTwice(Dedup(Gathered(l, key)), Gathered(more, key));
  }

  lemma FirstNameOfBuilt(attrs: seq<Attribute>, key: string)
    requires key in Keys(attrs)
    ensures key in Keys(AddAll([], attrs))
    ensures FirstName(AddAll([], attrs), key) == FirstName(attrs, key)
  {
    hide Canonical, AddAll;
    KeysOfBuilt([], attrs);
    NamesAfterAddAll(attrs);
  }

  lemma NameOfBuilt(l: seq<Attribute>, more: seq<Attribute>, i: nat)
    requires i < |AddAll([], l + more)| && i < |AddAll([], l + AddAll([], more))|
    ensures AddAll([], l + AddAll([], more))[i].name == AddAll([], l + more)[i].name
  {
    hide Canonical, AddAll;
    var built := AddAll([], more);
    KeysOfBuilt(l, more);
    var key := Keys(AddAll([], l + more))[i];
    NamesAfterAddAll(l + built);
    NamesAfterAddAll(l + more);
    KeysConcat(l, more);
    FirstNameInConcat(l, more, key);
    FirstNameInConcat(l, built, key);
    if key in Keys(more) {
      FirstNameOfBuilt(more, key);
    }
  }

  /** Giving an identity a second set of attributes is giving it, in turn, what that set was built from. */
  lemma WithAttributesTwice(l: Attrs, more: seq<Attribute>)
    ensures AddAll(l, AddAll([], more)) == AddAll(l, more)
  {
    hide Canonical, AddAll;
    var built := AddAll([], more);
    AddAllOfBuilt(l);
    AddAllConcat([], l, more);
    AddAllConcat([], l, built);
    var a, b := AddAll([], l + built), AddAll([], l + more);
    AddAllWellFormed([], l + built);
    AddAllWellFormed([], l + more);
    KeysOfBuilt(l, more);
    assert |Keys(a)| == |a| && |Keys(b)| == |b|;
    forall i | 0 <= i < |a| ensures a[i].name == b[i].name {
      NameOfBuilt(l, more, i);
    }
    forall key ensures ValuesUnder(a, key) == ValuesUnder(b, key) {
      ValuesOfBuilt(l, more, key);
    }
    ListUnique(a, b);
  }

  // ----- The index, and the results of building -----

  /** The index is exactly the positions of the canonical names. */
  ghost predicate IsIndex(index: map<string, nat>, ks: seq<string>) {
    (forall key :: key in index <==> key in ks) &&
    (forall key :: key in index ==> index[key] == FirstIndex(ks, key))
  }

  /** `l` with a place for `name`. */
  function Placed(l: seq<Attribute>, name: string): seq<Attribute> {
    if Canonical(name) in Keys(l) then l else l + [Attribute(name, [])]
  }

  lemma AddAtPlace(l: seq<Attribute>, name: string, values: seq<string>)
    ensures var p := Placed(l, name);
            && Canonical(name) in Keys(p)
            && (var i := FirstIndex(Keys(p), Canonical(name));
                && i < |p|
                && AddTo(l, name, values) == p[i := Attribute(p[i].name, DedupOnto(p[i].values, values))]
                && Keys(AddTo(l, name, values)) == Keys(p))
  {
    hide Canonical;
    var key := Canonical(name);
    KeysAfterAdd(l, name, values);
    if key !in Keys(l) {
      KeysConcat(l, [Attribute(name, [])]);
      FreshIndex(Keys(l), key);
    }
  }

  lemma FreshIndex(ks: seq<string>, key: string)
    requires key !in ks
    ensures FirstIndex(ks + [key], key) == |ks|
    ensures forall k :: k in ks ==> FirstIndex(ks + [key], k) == FirstIndex(ks, k)
  {
    FirstIndexUnique(ks + [key], key, |ks|);
    forall k | k in ks ensures FirstIndex(ks + [key], k) == FirstIndex(ks, k) {
      FirstIndexInConcat(ks, [key], k);
    }
  }

  lemma {:induction false} NothingRefused(attrs: seq<Attribute>)
    requires forall i :: 0 <= i < |attrs| ==> Accepts(attrs[i].name) && attrs[i].values != [] && "" !in attrs[i].values
    ensures FirstRefusal(attrs).None?
  {
    hide Accepts;
    if attrs != [] {
      NothingRefused(attrs[1..]);
    }
  }

  /** What `NewAttributes` returns, as a value. */
  function Built(attrs: seq<Attribute>): Result<seq<Attribute>> {
    match FirstRefusal(attrs)
    case Some(fault) => Err(fault)
    case None => Ok(AddAll([], attrs))
  }

  /** One step of the merge: what the first list lacks is added whole. */
  lemma UnderStep(a: Attrs, b: Attrs, i: nat)
    requires i < |b|
    ensures var key, mid := Canonical(b[i].name), UnderOf(a, b[..i]);
            UnderOf(a, b[..i + 1]) == if key in Keys(mid) then mid else AddTo(mid, b[i].name, b[i].values)
  {
    hide Canonical, Keys, UnderOf;
    UnderSnoc(a, b, i);
    UnderInduct(a, b, i);
    KeyIsFresh(b, i);
    DedupOfDistinct(b[i].values);
  }

  ghost predicate Refusable(a: Attribute) {
    !Accepts(a.name) || a.values == [] || "" in a.values
  }

  ghost predicate FirstRefusable(attrs: seq<Attribute>, i: int) {
    0 <= i < |attrs| && Refusable(attrs[i]) && forall k :: 0 <= k < i ==> !Refusable(attrs[k])
  }

  /** A list is built exactly when every attribute has a name that is carried, a value and no empty one; otherwise the
      first that has not is the error, for its name if that is refused, and else for its values. */
  lemma {:induction false} BuiltMeaning(attrs: seq<Attribute>, i: int)
    ensures Built(attrs).Ok? <==>
            forall k :: 0 <= k < |attrs| ==> Accepts(attrs[k].name) && attrs[k].values != [] && "" !in attrs[k].values
    ensures Built(attrs).Err? <==> exists k :: FirstRefusable(attrs, k)
    ensures FirstRefusable(attrs, i) ==>
              Built(attrs) == Err(if !Accepts(attrs[i].name) then AttributeName else AttributeValue)
  {
    hide Accepts, AddAll;
    if attrs != [] {
      var rest := attrs[1..];
      BuiltMeaning(rest, i - 1);
      forall k ensures !Refusable(attrs[0]) ==> (FirstRefusable(rest, k) <==> k >= 0 && FirstRefusable(attrs, k + 1)) {
        assert 0 <= k < |rest| ==> rest[k] == attrs[k + 1];
        assert FirstRefusable(attrs, k + 1) ==> forall j :: 0 <= j < k ==> rest[j] == attrs[j + 1];
      }
      if Refusable(attrs[0]) {
        assert FirstRefusable(attrs, 0);
      } else {
        if k :| FirstRefusable(attrs, k) {
          assert FirstRefusable(rest, k - 1);
        }
        if k :| FirstRefusable(rest, k) {
          assert FirstRefusable(attrs, k + 1);
        }
        assert forall k :: 0 <= k < |rest| ==> rest[k] == attrs[k + 1];
      }
    }
  }

  /** What a caller reads back after `NewAttributes`: every value given under an equivalent name, once, in order. */
  lemma GetAfterNew(attrs: seq<Attribute>, name: string)
    requires Built(attrs).Ok?
    ensures WellFormed(Built(attrs).value)
    ensures ValuesUnder(Built(attrs).value, Canonical(name)) == Dedup(Gathered(attrs, Canonical(name)))
    ensures Keys(Built(attrs).value) == Dedup(Keys(attrs))
  {
    AddAllWellFormed([], attrs);
    ValuesAfterAddAll([], attrs, Canonical(name));
    KeysAfterAddAll([], attrs);
  }
}
