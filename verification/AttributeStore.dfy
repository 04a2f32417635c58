/** The attribute list as it lies in memory: attributes.go, over the slices that callers hand in and get back. */
module AttributeStore {
  import opened Basics
  import opened Faults
  import opened AttributeNames
  import opened AttributeLists

  /** A slice: the first `len` places of an array, which may have room for more. */
  datatype Slice = Slice(data: array<string>, len: nat)

  /** An attribute as callers hand it in and as the list holds it. */
  datatype Held = Held(name: string, values: Slice)

  ghost predicate InBounds(l: seq<Held>) {
    forall i :: 0 <= i < |l| ==> l[i].values.len <= l[i].values.data.Length
  }

  ghost function ArraysOf(l: seq<Held>): set<array<string>> {
    set i | 0 <= i < |l| :: l[i].values.data
  }

  /** No two attributes share an array. */
  ghost predicate Apart(l: seq<Held>) {
    forall i, j :: 0 <= i < j < |l| ==> l[i].values.data != l[j].values.data
  }

  /** What is to be read there now. */
  ghost function View(l: seq<Held>): (v: seq<Attribute>)
    requires InBounds(l)
    reads ArraysOf(l)
    ensures |v| == |l|
    ensures forall i :: 0 <= i < |l| ==> v[i] == Attribute(l[i].name, l[i].values.data[..l[i].values.len])
  {
    seq(|l|, i requires 0 <= i < |l| && InBounds(l) reads ArraysOf(l) =>
      Attribute(l[i].name, l[i].values.data[..l[i].values.len]))
  }

  /** `s` with `v` behind it, in place where there is room and in a new array where there is none. */
  method Append(s: Slice, v: string) returns (t: Slice)
    requires s.len <= s.data.Length
    modifies s.data
    ensures t.len == s.len + 1 <= t.data.Length && t.data[..t.len] == old(s.data[..s.len]) + [v]
    ensures t.data == s.data || fresh(t.data)
  {
    var data := s.data;
    if s.len == data.Length {
      data := new string[2 * s.len + 1];
      for k := 0 to s.len
        invariant forall m :: 0 <= m < k ==> data[m] == s.data[m]
        invariant s.data[..] == old(s.data[..])
      {
        data[k] := s.data[k];
      }
    }
    data[s.len] := v;
    t := Slice(data, s.len + 1);
  }

  method Holds(s: Slice, v: string) returns (there: bool)
    requires s.len <= s.data.Length
    ensures there <==> v in s.data[..s.len]
  {
    for k := 0 to s.len
      invariant v !in s.data[..k]
    {
      if s.data[k] == v {
        return true;
      }
    }
    return false;
  }

  /** slices.Clone: the same values in an array of their own. */
  method Clone(s: Slice) returns (c: array<string>)
    requires s.len <= s.data.Length
    ensures fresh(c) && c[..] == s.data[..s.len]
  {
    c := new string[s.len];
    for k := 0 to s.len
      invariant forall m :: 0 <= m < k ==> c[m] == s.data[m]
    {
      c[k] := s.data[k];
    }
  }

  /** The map from canonical descriptions to positions: a cell that every copy of a list refers to. */
  class Index {
    var positions: map<string, nat>

    constructor ()
      ensures positions == map[]
    {
      positions := map[];
    }
  }

  /** What a list says of a name: nothing, some values, or a position past its end. */
  datatype Reading = Missing | Values(values: seq<string>) | OutOfRange

  /** An attribute with nothing in it, for room not taken yet. */
  method Blank() returns (h: Held)
    ensures h.values.len == 0
  {
    var none := new string[0];
    return Held("", Slice(none, 0));
  }

  /** An Attributes: a struct, which is copied by its fields. Copies share the array, the values and the index. */
  class Attributes {
    ghost var Repr: set<object> // this struct, and everything it refers to
    var list: array<Held>
    var len: nat
    var index: Index? // nil in the zero value

    ghost predicate Readable()
      reads this, list
    {
      len <= list.Length && InBounds(list[..len])
    }

    ghost predicate Shaped()
      reads this, list
    {
      && Readable() && Apart(list[..len])
      && this in Repr && list in Repr && ArraysOf(list[..len]) <= Repr && (index != null ==> index in Repr)
    }

    ghost function Contents(): seq<Attribute>
      requires Shaped()
      reads this, Repr
    {
      View(list[..len])
    }

    ghost function Positions(): map<string, nat>
      reads this, index
    {
      if index == null then map[] else index.positions
    }

    ghost predicate Valid()
      reads this, list, Repr
    {
      Shaped() && WellFormed(Contents()) && IsIndex(Positions(), Keys(Contents()))
    }

    /** What this struct says of a name, whether or not it is up to date. */
    ghost function Read(name: string): Reading
      requires Readable()
      reads this, index, list, if Readable() then ArraysOf(list[..len]) else {}
    {
      if Canonical(name) !in Positions() then Missing
      else if Positions()[Canonical(name)] >= len then OutOfRange
      else Values(View(list[..len])[Positions()[Canonical(name)]].values)
    }

    /** An empty list; with room for some attributes it has its index from the start. */
    constructor (room: nat)
      ensures Valid() && Contents() == [] && fresh(Repr)
      ensures index == null <==> room == 0
    {
      var blank := Blank();
      var data := new Held[room](_ => blank);
      var cell := new Index();
      list, len := data, 0;
      index := if room > 0 then cell else null;
      Repr := {this, data} + if room > 0 then {cell} else {};
    }

    /** The struct copied. */
    constructor Alias(a: Attributes)
      requires a.Readable()
      ensures list == a.list && len == a.len && index == a.index
      ensures Readable() && forall n :: Read(n) == a.Read(n)
    {
      list, len, index := a.list, a.len, a.index;
      Repr := a.Repr;
    }

    /** One more value, for the attribute at `i`. */
    method AppendAt(i: nat, v: string)
      requires Shaped() && i < len
      modifies this`Repr, list, list[i].values.data
      ensures Shaped() && fresh(Repr - old(Repr))
      ensures forall k :: 0 <= k < len && k != i ==> list[k] == old(list[k])
      ensures list[i].values.data == old(list[i].values.data) || fresh(list[i].values.data)
      ensures var was := old(Contents());
              Contents() == was[i := Attribute(was[i].name, was[i].values + [v])]
    {
      hide View;
      ghost var before := list[..len];
      var more := Append(list[i].values, v);
      list[i] := Held(list[i].name, more);
      Repr := Repr + {more.data};
      assert list[..len] == before[i := list[i]];
    }

    method AddValue(i: nat, v: string)
      requires Shaped() && i < len
      modifies this`Repr, list, list[i].values.data
      ensures Shaped() && fresh(Repr - old(Repr))
      ensures forall k :: 0 <= k < len && k != i ==> list[k] == old(list[k])
      ensures list[i].values.data == old(list[i].values.data) || fresh(list[i].values.data)
      ensures var was := old(Contents());
              var vs := was[i].values;
              Contents() == was[i := Attribute(was[i].name, if v in vs then vs else vs + [v])]
    {
      hide View;
      var there := Holds(list[i].values, v);
      if !there {
        AppendAt(i, v);
      }
    }

    /** Room for one more attribute: a larger array when this one is full. */
    method Grow()
      requires Shaped()
      modifies this`Repr, this`list
      ensures Shaped() && len < list.Length && Contents() == old(Contents())
      ensures fresh(Repr - old(Repr)) && (list == old(list) || fresh(list)) && list[..len] == old(list[..len])
    {
      hide View;
      if len == list.Length {
        var blank := Blank();
        var data := new Held[2 * len + 1](_ => blank);
        for k := 0 to len
          invariant list == old(list) && Repr == old(Repr) && data[..k] == list[..k]
        {
          data[k] := list[k];
        }
        assert data[..len] == list[..len];
        list := data;
        Repr := Repr + {data};
      }
    }

    /** A place at the end, with room for so many values. */
    method NewPlace(name: string, room: nat)
      requires Shaped()
      modifies this`Repr, this`list, this`len, list
      ensures Shaped() && fresh(Repr - old(Repr)) && Contents() == old(Contents()) + [Attribute(name, [])]
      ensures len == old(len) + 1 && (list == old(list) || fresh(list)) && fresh(list[len - 1].values.data)
      ensures old(list)[..old(len)] == old(list[..len])
    {
      hide View;
      ghost var was := Contents();
      var data := new string[room];
      Grow();
      ghost var before := list[..len];
      list[len] := Held(name, Slice(data, 0));
      len := len + 1;
      Repr := Repr + {data};
      assert list[..len] == before + [Held(name, Slice(data, 0))];
      assert Contents() == was + [Attribute(name, [])];
    }

    method MakeIndex()
      requires Shaped()
      modifies this`index, this`Repr
      ensures Shaped() && fresh(Repr - old(Repr)) && Contents() == old(Contents())
      ensures index != null && index.positions == old(Positions()) && (index == old(index) || fresh(index))
      ensures old(index) != null ==> index == old(index)
    {
      if index == null {
        index := new Index();
        Repr := Repr + {index};
      }
    }

    /** A position for a name that has none. */
    method PlaceNew(name: string, room: nat) returns (i: nat)
      requires Shaped() && index != null && Canonical(name) !in Keys(Contents())
      requires IsIndex(index.positions, Keys(Contents()))
      modifies this`Repr, this`list, this`len, list, index
      ensures Shaped() && fresh(Repr - old(Repr)) && i == old(len) < len && index == old(index)
      ensures Contents() == old(Contents()) + [Attribute(name, [])] && IsIndex(index.positions, Keys(Contents()))
      ensures Canonical(name) in Keys(Contents()) && i == FirstIndex(Keys(Contents()), Canonical(name))
      ensures Kept(old(list), old(len), old(Contents())) && Untouched(old(list), old(len), i)
    {
      hide Canonical, Keys, View, FirstIndex, InBounds, Apart;
      ghost var was, key := Contents(), Canonical(name);
      FreshIndex(Keys(was), key);
      KeysConcat(was, [Attribute(name, [])]);
      assert Keys([Attribute(name, [])]) == [key];
      i := len;
      index.positions := index.positions[Canonical(name) := i];
      assert Shaped() && Contents() == was;
      NewPlace(name, room);
      KeysAfterPlaced(was, name);
    }

    /** Finds the position of a name, making one at the end when there is none. */
    method Place(name: string, room: nat) returns (i: nat)
      requires Valid()
      modifies this, list, index
      ensures Shaped() && fresh(Repr - old(Repr)) && i < len
      ensures Contents() == Placed(old(Contents()), name) && IsIndex(Positions(), Keys(Contents()))
      ensures Canonical(name) in Keys(Contents()) && i == FirstIndex(Keys(Contents()), Canonical(name))
      ensures old(index) != null ==> index == old(index)
      ensures Canonical(name) in Keys(old(Contents())) ==> len == old(len) && list == old(list)
      ensures Canonical(name) !in Keys(old(Contents())) ==>
                Kept(old(list), old(len), old(Contents())) && Untouched(old(list), old(len), i)
    {
      hide Canonical, Keys, View, WellFormed, FirstIndex, InBounds, Apart, Kept, Untouched;
      var key := Canonical(name);
      ghost var was := Contents();
      MakeIndex();
      if key in index.positions {
        i := index.positions[key];
      } else {
        i := PlaceNew(name, room);
      }
    }

    /** The values that the attribute at `i` does not have yet, behind those it has. */
    method AddValues(i: nat, values: Slice)
      requires Shaped() && i < len && values.len <= values.data.Length && values.data !in Repr
      modifies this`Repr, list, list[i].values.data
      ensures Shaped() && fresh(Repr - old(Repr))
      ensures forall k :: 0 <= k < len && k != i ==> list[k] == old(list[k])
      ensures var was := old(Contents());
              Contents() ==
              was[i := Attribute(was[i].name, DedupOnto(was[i].values, old(values.data[..values.len])))]
    {
      hide DedupOnto, View;
      ghost var was, given := Contents(), values.data[..values.len];
      ghost var start := was[i].values;
      DedupNothing(start);
      for j := 0 to values.len
        invariant Shaped() && fresh(Repr - old(Repr))
        invariant forall k :: 0 <= k < len && k != i ==> list[k] == old(list[k])
        invariant list[i].values.data == old(list[i].values.data) || fresh(list[i].values.data)
        invariant values.data !in Repr && values.data[..values.len] == given
        invariant Contents() == was[i := Attribute(was[i].name, DedupOnto(start, given[..j]))]
      {
        assert given[..j + 1] == given[..j] + [given[j]];
        DedupSnoc(start, given[..j], given[j]);
        AddValue(i, values.data[j]);
      }
      assert given[..|given|] == given;
    }

    /** Adds values under a name. They are copied: what is handed in is only read. */
    method Add(name: string, values: Slice)
      requires Valid() && values.len <= values.data.Length && values.data !in Repr
      modifies Repr
      ensures Valid() && fresh(Repr - old(Repr))
      ensures Contents() == AddTo(old(Contents()), name, old(values.data[..values.len]))
      ensures old(index) != null ==> index == old(index)
      ensures Canonical(name) in Keys(old(Contents())) ==> len == old(len) && list == old(list)
      ensures Canonical(name) !in Keys(old(Contents())) ==> Kept(old(list), old(len), old(Contents()))
    {
      hide Canonical, Keys, AddTo, Placed, WellFormed, IsIndex, DedupOnto, View, FirstIndex, InBounds, Apart;
      ghost var was, given := Contents(), values.data[..values.len];
      AddKeepsWellFormed(was, name, given);
      AddAtPlace(was, name, given);
      var i := Place(name, values.len);
      assert values.data[..values.len] == given;
      AddValuesBeside(i, values, old(list), old(len), was, Canonical(name) !in Keys(was));
    }

    /** The same, where another struct may still read the places that this one had before it made this one. */
    method AddValuesBeside(i: nat, values: Slice, ghost before: array<Held>, ghost n: nat, ghost was: seq<Attribute>,
                           ghost made: bool)
      requires Shaped() && i < len && values.len <= values.data.Length && values.data !in Repr
      requires made ==> Kept(before, n, was) && Untouched(before, n, i)
      modifies this`Repr, list, list[i].values.data
      ensures Shaped() && fresh(Repr - old(Repr))
      ensures var was := old(Contents());
              Contents() ==
              was[i := Attribute(was[i].name, DedupOnto(was[i].values, old(values.data[..values.len])))]
      ensures made ==> Kept(before, n, was)
    {
      hide DedupOnto, View, InBounds, Apart;
      ghost var items := if made then before[..n] else [];
      AddValues(i, values);
      if made {
        assert before[..n] == items;
      }
    }

    /** Writing in place `i` leaves the first `n` places of that array, and their values, alone. */
    ghost predicate Untouched(before: array<Held>, n: nat, i: nat)
      reads this, list, before
    {
      i < len <= list.Length && n <= before.Length && (before == list ==> n <= i) &&
      list[i].values.data !in ArraysOf(before[..n])
    }

    /** What the struct says of a name: a fresh array of the values under any equivalent one, or that there is none. */
    method Get(name: string) returns (r: Reading, values: Option<array<string>>)
      requires Readable()
      ensures r == old(Read(name)) && (values.Some? <==> r.Values?)
      ensures values.Some? ==> fresh(values.value) && values.value[..] == r.values
    {
      hide Canonical, View;
      var key := Canonical(name);
      if index == null || key !in index.positions {
        return Missing, None;
      }
      if index.positions[key] >= len {
        return OutOfRange, None;
      }
      var vs := list[index.positions[key]].values;
      assert list[..len][index.positions[key]].values == vs;
      var c := Clone(vs);
      return Values(c[..]), Some(c);
    }

    /** A list that is up to date says what it holds. */
    lemma ReadIs(name: string)
      requires Valid()
      ensures Read(name) ==
              if Canonical(name) in Keys(Contents()) then Values(ValuesUnder(Contents(), Canonical(name))) else Missing
    {
      hide Canonical, Keys, View, WellFormed;
    }

    /** Every attribute, in order, with a copy of its values. */
    method All() returns (l: seq<Attribute>)
      requires Valid()
      ensures l == Contents()
    {
      l := [];
      for i := 0 to len
        invariant l == Contents()[..i]
      {
        assert list[..len][i] == list[i];
        l := l + [Attribute(list[i].name, list[i].values.data[..list[i].values.len])];
      }
    }
  }

  lemma KeysAfterPlaced(was: seq<Attribute>, name: string)
    requires Canonical(name) !in Keys(was)
    ensures Canonical(name) in Keys(was + [Attribute(name, [])])
  {
    hide Canonical, Keys;
    KeysConcat(was, [Attribute(name, [])]);
    assert Keys([Attribute(name, [])]) == [Canonical(name)];
    assert [Canonical(name)][0] == Canonical(name);
  }

  /** What lay in the first places of an array lies there still. */
  ghost predicate Kept(list: array<Held>, len: nat, was: seq<Attribute>)
    reads list, if len <= list.Length then ArraysOf(list[..len]) else {}
  {
    len <= list.Length && InBounds(list[..len]) && View(list[..len]) == was
  }

  /** Whether an attribute is refused: for its name before its values. */
  method Refused(at: Held) returns (fault: Option<Fault>)
    requires at.values.len <= at.values.data.Length
    ensures fault == FirstRefusal([Attribute(at.name, at.values.data[..at.values.len])])
  {
    hide Accepts;
    var vs := at.values;
    ghost var one := Attribute(at.name, vs.data[..vs.len]);
    assert [one][1..] == [];
    if !Accepts(at.name) {
      return Some(AttributeName);
    }
    if vs.len == 0 {
      return Some(AttributeValue);
    }
    for j := 0 to vs.len
      invariant forall k :: 0 <= k < j ==> vs.data[k] != ""
    {
      if vs.data[j] == "" {
        assert one.values[j] == "";
        return Some(AttributeValue);
      }
    }
    return None;
  }

  lemma RefusalStep(given: seq<Attribute>, i: nat)
    requires i < |given|
    ensures FirstRefusal(given[i..]) ==
            if FirstRefusal([given[i]]).Some? then FirstRefusal([given[i]]) else FirstRefusal(given[i + 1..])
  {
    hide Accepts;
    assert given[i..][0] == given[i] && given[i..][1..] == given[i + 1..];
    assert [given[i]][1..] == [];
  }

  /** Checks these attributes and puts them together, in memory of their own: nothing handed in is kept. */
  method NewAttributes(attrs: seq<Held>) returns (r: Result<Attributes>)
    requires InBounds(attrs)
    ensures r.Ok? <==> Built(View(attrs)).Ok?
    ensures r.Err? ==> Built(View(attrs)) == Err(r.error)
    ensures r.Ok? ==> fresh(r.value) && fresh(r.value.Repr) && r.value.Valid()
    ensures r.Ok? ==> r.value.Contents() == Built(View(attrs)).value
  {
    hide FirstRefusal, Canonical, AddTo, AddAll, Keys, WellFormed, IsIndex, View, Apart;
    NothingAdded();
    var a := new Attributes(|attrs|);
    ghost var given := View(attrs);
    for i := 0 to |attrs|
      invariant fresh(a) && fresh(a.Repr) && a.Valid() && View(attrs) == given
      invariant a.Contents() == AddAll([], given[..i])
      invariant FirstRefusal(given) == FirstRefusal(given[i..])
    {
      RefusalStep(given, i);
      assert given[i] == Attribute(attrs[i].name, attrs[i].values.data[..attrs[i].values.len]);
      var fault := Refused(attrs[i]);
      assert fault == FirstRefusal([given[i]]);
      assert View(attrs) == given;
      if fault.Some? {
        assert FirstRefusal(given) == fault;
        return Err(fault.value);
      }
      AddAllSnoc([], given[..i], given[i]);
      assert given[..i + 1] == given[..i] + [given[i]];
      a.Add(attrs[i].name, attrs[i].values);
    }
    assert given[..|attrs|] == given && given[|attrs|..] == [];
    NoRefusal();
    return Ok(a);
  }

  lemma NothingAdded()
    ensures AddAll([], []) == []
  {}

  lemma NoRefusal()
    ensures FirstRefusal([]).None?
  {}

  /** An up-to-date list that holds just these. */
  ghost predicate Is(a: Attributes, l: seq<Attribute>)
    reads a, a.list, a.Repr
  {
    a.Valid() && a.Contents() == l
  }

  lemma ItemOf(a: Attributes, l: seq<Attribute>, i: nat)
    requires Is(a, l) && i < a.len
    ensures |l| == a.len <= a.list.Length && WellFormed(l)
    ensures a.list[i].values.len <= a.list[i].values.data.Length && a.list[i].values.data in a.Repr
    ensures l[i] == Attribute(a.list[i].name, a.list[i].values.data[..a.list[i].values.len])
  {
    hide WellFormed, IsIndex, Keys;
    assert a.list[..a.len][i] == a.list[i];
    assert a.list[i].values.data in ArraysOf(a.list[..a.len]);
  }

  /** `under`: the first list, then what only the second has, in memory of its own. */
  method Under(a: Attributes, b: Attributes) returns (out: Attributes)
    requires a.Valid() && b.Valid()
    ensures fresh(out) && fresh(out.Repr) && out.Valid()
    ensures out.Contents() == UnderOf(a.Contents(), b.Contents())
  {
    hide Canonical, Keys, UnderOf, WellFormed, IsIndex, View, Apart, InBounds;
    ghost var first: Attrs, second: Attrs := a.Contents(), b.Contents();
    assert Is(b, second);
    out := Copy(a);
    AddRest(out, b, first, second);
    WhatIs(out, UnderOf(first, second));
  }

  /** What the second list has and the first has not, added to the first. */
  method AddRest(out: Attributes, b: Attributes, ghost first: Attrs, ghost second: Attrs)
    requires Is(out, first) && Is(b, second) && out.Repr !! b.Repr
    modifies out.Repr
    ensures Is(out, UnderOf(first, second)) && fresh(out.Repr - old(out.Repr))
  {
    hide Canonical, Keys, UnderOf, AddTo, WellFormed, IsIndex, View, Apart, InBounds;
    UnderUnit(first);
    assert second[..0] == [];
    assert b in b.Repr && b.list in b.Repr;
    hide Is;
    for i := 0 to b.len
      invariant fresh(out.Repr - old(out.Repr)) && Is(b, second) && Is(out, UnderOf(first, second[..i]))
    {
      ItemOf(b, second, i);
      UnderStep(first, second, i);
      AddMissing(out, b.list[i], UnderOf(first, second[..i]));
    }
    Whole(b, second);
  }

  lemma Whole(a: Attributes, l: seq<Attribute>)
    requires Is(a, l)
    ensures |l| == a.len && l[..a.len] == l
  {}

  lemma WhatIs(a: Attributes, l: seq<Attribute>)
    requires Is(a, l)
    ensures a.Valid() && a.Contents() == l
  {}

  method AddMissing(out: Attributes, at: Held, ghost l: seq<Attribute>)
    requires Is(out, l) && at.values.len <= at.values.data.Length && at.values.data !in out.Repr
    modifies out.Repr
    ensures fresh(out.Repr - old(out.Repr))
    ensures Is(out, if Canonical(at.name) in Keys(l) then l
                    else AddTo(l, at.name, old(at.values.data[..at.values.len])))
  {
    hide Canonical, Keys, AddTo, WellFormed, View;
    if out.index == null || Canonical(at.name) !in out.index.positions {
      out.Add(at.name, at.values);
    }
  }

  /** A list added to an empty one, attribute by attribute, is that list over again. */
  method Copy(a: Attributes) returns (out: Attributes)
    requires a.Valid()
    ensures fresh(out) && fresh(out.Repr) && out.Valid() && out.Contents() == a.Contents()
  {
    hide Canonical, Keys, AddTo, AddAll, WellFormed, IsIndex, View, Apart;
    out := new Attributes(0);
    NothingAdded();
    WithAttributes(out, a);
    AddAllOfBuilt(out.Contents());
    AddAllOfBuilt(a.Contents());
  }

  /** The option WithAttributes: each attribute of a built list, added to those an identity has. */
  method WithAttributes(attrs: Attributes, more: Attributes)
    requires attrs.Valid() && more.Valid() && more != attrs && more.Repr !! attrs.Repr
    modifies attrs.Repr
    ensures attrs.Valid() && fresh(attrs.Repr - old(attrs.Repr))
    ensures attrs.Contents() == AddAll(old(attrs.Contents()), old(more.Contents()))
    ensures more.Valid() && more.Contents() == old(more.Contents())
  {
    hide Canonical, Keys, AddTo, AddAll, WellFormed, IsIndex, View, Apart;
    ghost var was, given := attrs.Contents(), more.Contents();
    NothingMore(was);
    for i := 0 to more.len
      invariant attrs.Valid() && fresh(attrs.Repr - old(attrs.Repr))
      invariant more.Valid() && more.Contents() == given && more.Repr !! attrs.Repr
      invariant attrs.Contents() == AddAll(was, given[..i])
    {
      var at := more.list[i];
      assert given[i] == Attribute(at.name, at.values.data[..at.values.len]);
      AddAllSnoc(was, given[..i], given[i]);
      assert given[..i + 1] == given[..i] + [given[i]];
      attrs.Add(at.name, at.values);
    }
    assert given[..more.len] == given;
  }

  lemma NothingMore(l: seq<Attribute>)
    ensures AddAll(l, []) == l
  {}

  /** Values put into slices, for a call that takes slices. */
  method Slices(l: seq<Attribute>) returns (held: seq<Held>)
    ensures InBounds(held) && fresh(ArraysOf(held)) && View(held) == l
  {
    hide View;
    held := [];
    for i := 0 to |l|
      invariant InBounds(held) && fresh(ArraysOf(held)) && View(held) == l[..i]
    {
      var s := Sliced(l[i].values);
      assert View(held) == l[..i];
      Snoc(held, Held(l[i].name, s));
      held := held + [Held(l[i].name, s)];
      assert l[..i + 1] == l[..i] + [l[i]];
    }
  }

  lemma Snoc(held: seq<Held>, h: Held)
    requires InBounds(held) && h.values.len <= h.values.data.Length
    ensures InBounds(held + [h]) && ArraysOf(held + [h]) == ArraysOf(held) + {h.values.data}
    ensures View(held + [h]) == View(held) + [Attribute(h.name, h.values.data[..h.values.len])]
  {
    assert (held + [h])[|held|] == h;
    forall a | a in ArraysOf(held) ensures a in ArraysOf(held + [h]) {
      var i :| 0 <= i < |held| && held[i].values.data == a;
      assert (held + [h])[i].values.data == a;
    }
  }

  method Sliced(values: seq<string>) returns (s: Slice)
    ensures fresh(s.data) && s.len <= s.data.Length && s.data[..s.len] == values
  {
    var data := new string[|values|];
    for k := 0 to |values|
      invariant data[..k] == values[..k]
    {
      data[k] := values[k];
    }
    s := Slice(data, |values|);
  }

  /** A list, as a source that holds it hands it out. */
  method Holding(l: Attrs) returns (a: Attributes)
    ensures fresh(a) && fresh(a.Repr) && a.Valid() && a.Contents() == l
  {
    hide Canonical, AddTo, AddAll, Keys, WellFormed, IsIndex, View, Apart;
    var held := Slices(l);
    a := new Attributes(0);
    NothingAdded();
    for i := 0 to |held|
      invariant fresh(a) && fresh(a.Repr) && a.Valid() && a.Repr !! ArraysOf(held) && View(held) == l
      invariant a.Contents() == AddAll([], l[..i])
    {
      assert l[i] == Attribute(held[i].name, held[i].values.data[..held[i].values.len]);
      AddAllSnoc([], l[..i], l[i]);
      assert l[..i + 1] == l[..i] + [l[i]];
      a.Add(held[i].name, held[i].values);
    }
    assert l[..|held|] == l;
    AddAllOfBuilt(l);
  }

  // ----- Nothing handed in or handed out reaches what is held -----

  /** One write that a caller may make. */
  datatype Write = Write(target: array<string>, at: nat, value: string)

  ghost function Targets(writes: seq<Write>): set<array<string>> {
    set i | 0 <= i < |writes| :: writes[i].target
  }

  method Scribble(writes: seq<Write>)
    requires forall i :: 0 <= i < |writes| ==> writes[i].at < writes[i].target.Length
    modifies Targets(writes)
  {
    for i := 0 to |writes| {
      writes[i].target[writes[i].at] := writes[i].value;
    }
  }

  /** A read, and a note of what it said. */
  method ReadOut(a: Attributes, name: string, ghost l: seq<Attribute>)
    returns (values: Option<array<string>>, said: seq<string>)
    requires Is(a, l)
    ensures said == ValuesUnder(l, Canonical(name))
    ensures values.Some? ==> fresh(values.value)
  {
    hide Canonical, Keys, WellFormed, IsIndex, View, ValuesUnder;
    var r;
    r, values := a.Get(name);
    a.ReadIs(name);
    NoValuesUnder(l, Canonical(name));
    said := if r.Values? then r.values else [];
  }

  method Overwrite(c: array<string>, back: seq<(nat, string)>)
    modifies c
  {
    for i := 0 to |back| {
      if back[i].0 < c.Length {
        c[back[i].0] := back[i].1;
      }
    }
  }

  /** A caller builds a list, reads it, writes wherever it likes in what it handed in and in what it read, and reads
      again: both times it reads what it gave at first, each value once, in order. */
  method ReadAcrossWrites(attrs: seq<Held>, name: string, given: seq<Write>, back: seq<(nat, string)>)
    returns (r: Result<(seq<string>, seq<string>)>)
    requires InBounds(attrs) && Targets(given) <= ArraysOf(attrs)
    requires forall i :: 0 <= i < |given| ==> given[i].at < given[i].target.Length
    modifies ArraysOf(attrs)
    ensures r.Ok? <==> Built(old(View(attrs))).Ok?
    ensures r.Ok? ==> r.value.0 == r.value.1 == Dedup(Gathered(old(View(attrs)), Canonical(name)))
  {
    hide Canonical, Keys, WellFormed, IsIndex, View, Apart, InBounds, Gathered, Built, ValuesUnder;
    ghost var view := View(attrs);
    var made := NewAttributes(attrs);
    if made.Err? {
      return Err(made.error);
    }
    var a := made.value;
    GetAfterNew(view, name);
    ghost var l := a.Contents();
    assert Is(a, l);
    hide Is;
    var first, before := ReadOut(a, name, l);
    Scribble(given);
    if first.Some? {
      Overwrite(first.value, back);
    }
    var _, after := ReadOut(a, name, l);
    return Ok((before, after));
  }

  // ----- A copy of the struct, and an add through the original -----

  /** Nothing to add: the name is there, and every value under it. */
  ghost predicate AddsNothing(l: seq<Attribute>, name: string, values: seq<string>) {
    Canonical(name) in Keys(l) && forall v :: v in values ==> v in ValuesUnder(l, Canonical(name))
  }

  ghost function ReadingOf(l: seq<Attribute>, name: string): Reading {
    if Canonical(name) in Keys(l) then Values(ValuesUnder(l, Canonical(name))) else Missing
  }

  /** What a copy says once the original has been added to: nothing if it had no index; of the name added, the values
      of both, or a position past its end if the name is new; of any other name, what it said. */
  ghost function CopyReading(indexed: bool, l: seq<Attribute>, name: string, values: seq<string>, n: string): Reading {
    if !indexed then Missing
    else if Canonical(n) != Canonical(name) then ReadingOf(l, n)
    else if Canonical(name) in Keys(l) then Values(DedupOnto(ValuesUnder(l, Canonical(name)), values))
    else OutOfRange
  }

  /** A struct copied and then added to. What the copy says is settled name by name; and it says what it said, of every
      name, if and only if it had no index or there was nothing to add. */
  method AddBesideCopy(a: Attributes, name: string, values: Slice) returns (c: Attributes)
    requires a.Valid() && values.len <= values.data.Length && values.data !in a.Repr
    modifies a.Repr
    ensures fresh(c) && c.Readable() && a.Valid()
    ensures a.Contents() == AddTo(old(a.Contents()), name, old(values.data[..values.len]))
    ensures forall n :: c.Read(n) ==
              CopyReading(old(a.index) != null, old(a.Contents()), name, old(values.data[..values.len]), n)
    ensures (forall n :: c.Read(n) == old(a.Read(n))) <==>
            old(a.index) == null || AddsNothing(old(a.Contents()), name, old(values.data[..values.len]))
  {
    hide Canonical, Keys, AddTo, WellFormed, View, ValuesUnder, AddsNothing, CopyReading, ReadingOf, InBounds, Apart;
    ghost var l, vs, indexed := a.Contents(), values.data[..values.len], a.index != null;
    forall n ensures a.Read(n) == ReadingOf(l, n) {
      ReadsAs(a, n);
    }
    ZeroIsEmpty(a);
    c := new Attributes.Alias(a);
    a.Add(name, values);
    CopySays(a, c, l, name, vs, indexed);
    SaysTheSame(indexed, l, name, vs);
  }

  lemma ReadsAs(a: Attributes, n: string)
    requires a.Valid()
    ensures a.Read(n) == ReadingOf(a.Contents(), n)
  {
    a.ReadIs(n);
  }

  /** The state of a copy after an add: the places it had, in the array it had, and the index that has moved on. */
  lemma CopySays(a: Attributes, c: Attributes, l: seq<Attribute>, name: string, vs: seq<string>, indexed: bool)
    requires a.Valid() && a.Contents() == AddTo(l, name, vs) && WellFormed(l)
    requires c.index == if indexed then a.index else null
    requires c.len == |l| && (!indexed ==> l == [])
    requires if Canonical(name) in Keys(l) then c.list == a.list && c.len == a.len else Kept(c.list, c.len, l)
    ensures c.Readable() && forall n :: c.Read(n) == CopyReading(indexed, l, name, vs, n)
  {
    hide Canonical, Keys, AddTo, WellFormed, View, ValuesUnder, InBounds, Apart;
    KeysAfterAdd(l, name, vs);
    NoKeys();
    if Canonical(name) in Keys(l) {
      forall n ensures c.Read(n) == CopyReading(indexed, l, name, vs, n) {
        assert c.Read(n) == a.Read(n);
        ReadsAs(a, n);
        ValuesAfterAdd(l, name, vs, Canonical(n));
      }
    } else {
      FreshIndex(Keys(l), Canonical(name));
      forall n ensures c.Read(n) == CopyReading(indexed, l, name, vs, n) {
        BehindSays(c, l, Canonical(name), n);
      }
    }
  }

  /** A copy one place behind its index. */
  lemma BehindSays(c: Attributes, l: seq<Attribute>, key: string, n: string)
    requires Kept(c.list, c.len, l) && c.len == |l| && key !in Keys(l)
    requires c.index != null ==> IsIndex(c.index.positions, Keys(l) + [key])
    ensures c.Readable()
    ensures c.Read(n) ==
            if c.index == null then Missing
            else if Canonical(n) == key then OutOfRange
            else ReadingOf(l, n)
  {
    hide Canonical, Keys, View;
    FreshIndex(Keys(l), key);
  }

  lemma ZeroIsEmpty(a: Attributes)
    requires a.Valid()
    ensures a.index == null ==> a.Contents() == []
  {
    hide Canonical, View, WellFormed;
    assert a.Contents() != [] ==> Keys(a.Contents())[0] in Keys(a.Contents());
  }

  /** A copy that says of every name what the original said. */
  lemma SaysTheSame(indexed: bool, l: seq<Attribute>, name: string, vs: seq<string>)
    requires WellFormed(l) && (!indexed ==> l == [])
    ensures (forall n :: CopyReading(indexed, l, name, vs, n) == ReadingOf(l, n)) <==>
            !indexed || AddsNothing(l, name, vs)
  {
    hide Canonical, Keys, WellFormed, DedupOnto;
    NoKeys();
    if indexed {
      if AddsNothing(l, name, vs) {
        DedupNothingNew(ValuesUnder(l, Canonical(name)), vs);
      } else {
        assert CopyReading(indexed, l, name, vs, name) != ReadingOf(l, name);
      }
    }
  }

  /** Two names of different lengths, without options, are two attributes. */
  lemma OtherNames(m: string, n: string)
    requires NoSemicolon(m) && NoSemicolon(n) && |m| != |n|
    ensures Canonical(m) != Canonical(n)
  {
    hide Canonical;
    CanonicalDecidesEquivalence(m, n);
    PlainSplit(m);
    PlainSplit(n);
  }

  lemma PlainSplit(m: string)
    requires NoSemicolon(m)
    ensures Split(ToLower(m)) == [ToLower(m)]
  {
    assert forall i :: 0 <= i < |m| ==> ToLower(m)[i] == UNICODE_LOWER(m[i]);
    SplitOfPlain(ToLower(m));
  }

  /** One attribute with one value. */
  method OneAttribute(name: string, value: string) returns (a: Attributes)
    ensures fresh(a) && fresh(a.Repr) && a.Valid() && a.Shaped() && a.index != null
    ensures Keys(a.Contents()) == [Canonical(name)] && ValuesUnder(a.Contents(), Canonical(name)) == [value]
  {
    hide Canonical, WellFormed, IsIndex, View;
    a := new Attributes(1);
    var one := Sliced([value]);
    NoKeys();
    KeysAfterAdd([], name, [value]);
    ValuesAfterAdd([], name, [value], Canonical(name));
    DedupOfDistinct([value]);
    NoValuesUnder([], Canonical(name));
    a.Add(name, one);
  }

  /** A copy taken before a new name is added finds its place, which the copy does not have. */
  method NewNameBreaksCopy() returns (said: Reading)
    ensures said == OutOfRange
  {
    hide Canonical, Keys, View, InBounds, ValuesUnder, CopyReading, AddsNothing, Attributes.Read, Attributes.Valid;
    var a := OneAttribute("mail", "x");
    var more := Sliced(["y"]);
    ghost var l := a.Contents();
    NewNameSays(l, ["y"]);
    assert Keys(l) == [Canonical("mail")];
    var c := AddBesideCopy(a, "phone", more);
    assert c.Read("phone") == CopyReading(true, l, "phone", ["y"], "phone");
    var r, _ := c.Get("phone");
    return r;
  }

  lemma NewNameSays(l: seq<Attribute>, values: seq<string>)
    ensures Keys(l) == [Canonical("mail")] ==> CopyReading(true, l, "phone", values, "phone") == OutOfRange
  {
    hide Canonical, Keys;
    OtherNames("mail", "phone");
  }

  /** A copy taken before a value is added to a name it has says the new value too. */
  method NewValueReachesCopy() returns (said: Reading)
    ensures said == Values(["x", "y"])
  {
    hide Canonical, Keys, View, InBounds, ValuesUnder, CopyReading, AddsNothing, Attributes.Read, Attributes.Valid;
    var a := OneAttribute("mail", "x");
    var more := Sliced(["y"]);
    ghost var l := a.Contents();
    NewValueSays(l);
    assert Keys(l) == [Canonical("mail")];
    var c := AddBesideCopy(a, "mail", more);
    assert c.Read("mail") == CopyReading(true, l, "mail", ["y"], "mail");
    var r, _ := c.Get("mail");
    return r;
  }

  lemma NewValueSays(l: seq<Attribute>)
    ensures Keys(l) == [Canonical("mail")] && ValuesUnder(l, Canonical("mail")) == ["x"] ==>
            CopyReading(true, l, "mail", ["y"], "mail") == Values(["x", "y"])
  {
    hide Canonical, Keys, ValuesUnder;
    DedupSnoc(["x"], [], "y");
    DedupNothing(["x"]);
    assert [] + ["y"] == ["y"];
  }

  lemma NoValuesUnder(l: seq<Attribute>, key: string)
    ensures key !in Keys(l) ==> ValuesUnder(l, key) == []
  {}
}
