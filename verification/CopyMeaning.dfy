/** What is copied of an entry and which configurations are refused, said of attributes and values by their
    positions. */
module CopyMeaning {
  import opened Basics
  import opened Faults
  import opened AttributeNames
  import opened AttributeLists
  import opened LdapCopied
  import opened LdapGroups

  // ----- Which configurations are refused -----

  /** A description's type: what stands in front of its first semicolon, in lower case. */
  ghost predicate HasType(name: string, t: string) {
    NoSemicolon(t) &&
    (ToLower(name) == t || exists i :: 0 <= i < |name| && ToLower(name[..i]) == t && name[i] == ';')
  }

  lemma {:induction false} TypeIs(name: string)
    ensures HasType(name, AttrType(name))
  {
    JoinSplit(name);
    SplitParts(name);
    var parts := Split(name);
    LowerKeepsPlain(parts[0]);
    if |parts| == 1 {
      assert name == parts[0];
    } else {
      assert name == parts[0] + ";" + Join(parts[1..]);
      assert name[..|parts[0]|] == parts[0] && name[|parts[0]|] == ';';
    }
  }

  lemma LowerKeepsPlain(s: string)
    requires NoSemicolon(s)
    ensures NoSemicolon(ToLower(s))
  {}

  ghost predicate Copyable(name: string, own: seq<string>) {
    Accepts(name) && forall i :: 0 <= i < |own| && own[i] != "" ==> AttrType(name) != AttrType(own[i])
  }

  ghost predicate FirstRefused(names: seq<string>, own: seq<string>, i: int) {
    0 <= i < |names| && !Copyable(names[i], own) && forall k :: 0 <= k < i ==> Copyable(names[k], own)
  }

  /** Nothing is refused exactly when every name is accepted and of no type that is read for something else; else
      the first name that fails decides, by not being accepted before being taken. */
  lemma {:induction false} RefusalMeaning(names: seq<string>, own: seq<string>, i: int)
    ensures CopyRefusal(names, own).None? <==> forall k :: 0 <= k < |names| ==> Copyable(names[k], own)
    ensures FirstRefused(names, own, i) ==>
              CopyRefusal(names, own) == Some(if Accepts(names[i]) then ReadElsewhere else AttributeName)
  {
    hide Accepts, AttrType;
    if names != [] {
      var rest := names[1..];
      RefusalMeaning(rest, own, i - 1);
      assert forall k :: 0 <= k < |rest| ==> rest[k] == names[k + 1];
      assert forall k :: 1 <= k < |names| ==> names[k] == rest[k - 1];
      if Copyable(names[0], own) && FirstRefused(names, own, i) {
        assert FirstRefused(rest, own, i - 1);
      }
    }
  }

  /** The check of a configuration: a person's attributes before a group's. */
  lemma ConfigMeaning(cfg: RawConfig)
    ensures ConfigRefusal(cfg).None? <==>
            && (forall n :: n in cfg.attributes ==>
                  Accepts(n) && (cfg.totpAttribute == "" || AttrType(n) != AttrType(cfg.totpAttribute)))
            && (forall n :: n in cfg.groupAttributes ==>
                  && Accepts(n)
                  && (cfg.memberAttribute == "" || AttrType(n) != AttrType(cfg.memberAttribute))
                  && (cfg.groupAttribute == "" || AttrType(n) != AttrType(cfg.groupAttribute)))
    ensures forall i :: FirstRefused(cfg.attributes, [cfg.totpAttribute], i) ==>
              ConfigRefusal(cfg) == Some(if Accepts(cfg.attributes[i]) then ReadElsewhere else AttributeName)
    ensures forall i :: FirstRefused(cfg.groupAttributes, [cfg.memberAttribute, cfg.groupAttribute], i) ==>
              ConfigRefusal(cfg) == Some(if Accepts(cfg.groupAttributes[i]) then ReadElsewhere else AttributeName)
              || exists k :: FirstRefused(cfg.attributes, [cfg.totpAttribute], k)
  {
    hide Accepts, AttrType, CopyRefusal;
    var own, second := [cfg.memberAttribute, cfg.groupAttribute], [cfg.totpAttribute];
    NamesMeaning(cfg.attributes, second);
    NamesMeaning(cfg.groupAttributes, own);
    OwnOf(cfg);
  }

  lemma NamesMeaning(names: seq<string>, own: seq<string>)
    ensures CopyRefusal(names, own).None? <==> forall n :: n in names ==> Copyable(n, own)
    ensures CopyRefusal(names, own).Some? ==> exists i :: FirstRefused(names, own, i)
    ensures forall i :: FirstRefused(names, own, i) ==>
              CopyRefusal(names, own) == Some(if Accepts(names[i]) then ReadElsewhere else AttributeName)
  {
    hide Accepts, AttrType, CopyRefusal, Copyable;
    forall i ensures FirstRefused(names, own, i) ==>
                       CopyRefusal(names, own) == Some(if Accepts(names[i]) then ReadElsewhere else AttributeName)
    {
      RefusalMeaning(names, own, i);
    }
    RefusalMeaning(names, own, 0);
    if k :| 0 <= k < |names| && !Copyable(names[k], own) {
      SomeFirst(names, own, k);
    }
  }

  lemma {:induction false} SomeFirst(names: seq<string>, own: seq<string>, k: nat)
    requires k < |names| && !Copyable(names[k], own)
    ensures exists i :: FirstRefused(names, own, i)
  {
    hide Copyable;
    if !FirstRefused(names, own, k) {
      var l :| 0 <= l < k && !Copyable(names[l], own);
      SomeFirst(names, own, l);
    }
  }

  lemma OwnOf(cfg: RawConfig)
    ensures forall n :: Copyable(n, [cfg.totpAttribute]) <==>
              Accepts(n) && (cfg.totpAttribute == "" || AttrType(n) != AttrType(cfg.totpAttribute))
    ensures forall n :: Copyable(n, [cfg.memberAttribute, cfg.groupAttribute]) <==>
              && Accepts(n)
              && (cfg.memberAttribute == "" || AttrType(n) != AttrType(cfg.memberAttribute))
              && (cfg.groupAttribute == "" || AttrType(n) != AttrType(cfg.groupAttribute))
  {
    hide Accepts, AttrType;
    var own, second := [cfg.memberAttribute, cfg.groupAttribute], [cfg.totpAttribute];
    assert own[0] == cfg.memberAttribute && own[1] == cfg.groupAttribute && second[0] == cfg.totpAttribute;
  }

  // ----- What is copied -----

  /** A value that stands at this place, not empty, in an attribute of the same description. */
  ghost predicate StandsAt(attrs: seq<Attribute>, name: string, p: (nat, nat), v: string) {
    && p.0 < |attrs| && SameDescription(attrs[p.0].name, name)
    && p.1 < |attrs[p.0].values| && attrs[p.0].values[p.1] == v && v != ""
  }

  predicate Before(p: (nat, nat), q: (nat, nat)) {
    p.0 < q.0 || (p.0 == q.0 && p.1 < q.1)
  }

  function FilledAt(i: nat, values: seq<string>): (ps: seq<(nat, nat)>) {
    if values == [] then [] else
      var n := |values| - 1;
      FilledAt(i, values[..n]) + if values[n] != "" then [(i, n)] else []
  }

  /** Values and their places, in order; and of attribute `i`, none left out. */
  ghost predicate Filled(i: nat, values: seq<string>, vs: seq<string>, ps: seq<(nat, nat)>) {
    && |vs| == |ps|
    && (forall t :: 0 <= t < |ps| ==>
          ps[t].0 == i && ps[t].1 < |values| && values[ps[t].1] == vs[t] && vs[t] != "")
    && (forall t, u :: 0 <= t < u < |ps| ==> Before(ps[t], ps[u]))
    && (forall n: nat :: n < |values| && values[n] != "" ==> (i, n) in ps)
  }

  lemma {:induction false} FilledInOrder(i: nat, values: seq<string>)
    ensures Filled(i, values, NonEmpty(values), FilledAt(i, values))
  {
    hide Filled, NonEmpty;
    if values == [] {
      NothingFilled(i);
    } else {
      var init := values[..|values| - 1];
      FilledInOrder(i, init);
      FilledSnoc(i, values, NonEmpty(init), FilledAt(i, init));
      NonEmptyLast(values);
      assert FilledAt(i, init) + [] == FilledAt(i, init);
    }
  }

  lemma NothingFilled(i: nat)
    ensures Filled(i, [], NonEmpty([]), [])
  {}

  lemma NonEmptyLast(values: seq<string>)
    requires values != []
    ensures var init, last := values[..|values| - 1], values[|values| - 1];
            NonEmpty(values) == if last != "" then NonEmpty(init) + [last] else NonEmpty(init)
  {}

  lemma FilledSnoc(i: nat, values: seq<string>, vs: seq<string>, ps: seq<(nat, nat)>)
    requires values != [] && Filled(i, values[..|values| - 1], vs, ps)
    ensures var n := |values| - 1;
            if values[n] != "" then Filled(i, values, vs + [values[n]], ps + [(i, n)]) else Filled(i, values, vs, ps)
  {
    var n := |values| - 1;
    var all := ps + [(i, n)];
    assert all[|ps|] == (i, n);
    forall k: nat | k < n && values[k] != "" ensures (i, k) in ps {
      assert values[..n][k] == values[k];
    }
  }

  function PlacesOf(attrs: seq<Attribute>, name: string): seq<(nat, nat)> {
    if attrs == [] then [] else
      var n := |attrs| - 1;
      PlacesOf(attrs[..n], name) + if SameDescription(attrs[n].name, name) then FilledAt(n, attrs[n].values) else []
  }

  ghost predicate InPlace(attrs: seq<Attribute>, name: string, vs: seq<string>, ps: seq<(nat, nat)>) {
    && |vs| == |ps|
    && (forall t :: 0 <= t < |ps| ==> StandsAt(attrs, name, ps[t], vs[t]))
    && (forall t, u :: 0 <= t < u < |ps| ==> Before(ps[t], ps[u]))
    && (forall p, v :: StandsAt(attrs, name, p, v) ==> p in ps)
  }

  lemma {:induction false} ValuesInPlace(attrs: seq<Attribute>, name: string)
    ensures InPlace(attrs, name, ValuesOf(attrs, name), PlacesOf(attrs, name))
  {
    hide SameDescription, NonEmpty;
    if attrs != [] {
      var n := |attrs| - 1;
      var init := attrs[..n];
      ValuesInPlace(init, name);
      FilledInOrder(n, attrs[n].values);
      InPlaceSnoc(attrs, name, ValuesOf(init, name), PlacesOf(init, name));
    }
  }

  lemma InPlaceSnoc(attrs: seq<Attribute>, name: string, vs: seq<string>, ps: seq<(nat, nat)>)
    requires attrs != [] && InPlace(attrs[..|attrs| - 1], name, vs, ps)
    ensures var n := |attrs| - 1;
            forall more, at :: Filled(n, attrs[n].values, more, at) ==>
              if SameDescription(attrs[n].name, name) then InPlace(attrs, name, vs + more, ps + at)
              else InPlace(attrs, name, vs, ps)
  {
    hide SameDescription;
    var n := |attrs| - 1;
    var init := attrs[..n];
    forall p: (nat, nat), v ensures p.0 < n ==> (StandsAt(attrs, name, p, v) <==> StandsAt(init, name, p, v)) {}
    forall t | 0 <= t < |ps| ensures ps[t].0 < n && StandsAt(attrs, name, ps[t], vs[t]) {
      assert StandsAt(init, name, ps[t], vs[t]);
    }
    forall p: (nat, nat), v | StandsAt(attrs, name, p, v) && p.0 < n ensures p in ps {}
  }

  /** One value stands somewhere in front of everywhere the other does. */
  ghost predicate StandsBefore(attrs: seq<Attribute>, name: string, x: string, y: string) {
    exists p: (nat, nat) :: StandsAt(attrs, name, p, x) && forall q :: StandsAt(attrs, name, q, y) ==> Before(p, q)
  }

  /** Copied under a name: a value exactly if that name is asked for, in whatever spelling, and the value stands, not
      empty, in an attribute of that description; each once, in order of where it first stands. */
  lemma CopiedAre(attrs: seq<Attribute>, names: seq<string>, name: string, x: string)
    ensures var vs := ValuesUnder(AddAll([], CopyList(attrs, names)), Canonical(name));
            && (x in vs <==> Asked(names, Canonical(name)) && exists p: (nat, nat) :: StandsAt(attrs, name, p, x))
            && NoRepeats(vs)
            && forall m, n :: 0 <= m < n < |vs| ==> StandsBefore(attrs, name, vs[m], vs[n])
  {
    hide Canonical, CopyList, AddAll, ValuesUnder, StandsAt, StandsBefore, ValuesOf, PlacesOf;
    CopiedMeaning(attrs, names, name);
    ValuesInPlace(attrs, name);
    var all, ps := ValuesOf(attrs, name), PlacesOf(attrs, name);
    DedupMeaning(all);
    if x in all {
      var t :| 0 <= t < |all| && all[t] == x;
      assert StandsAt(attrs, name, ps[t], x);
    }
    if p: (nat, nat) :| StandsAt(attrs, name, p, x) {
      var t :| 0 <= t < |ps| && ps[t] == p;
      OneThere(attrs, name, p, x, all[t]);
    }
    var vs := Dedup(all);
    forall m, n | 0 <= m < n < |vs| ensures StandsBefore(attrs, name, vs[m], vs[n]) {
      PlacedOrder(attrs, name, all, ps, vs[m], vs[n]);
    }
  }

  lemma OneThere(attrs: seq<Attribute>, name: string, p: (nat, nat), x: string, y: string)
    requires StandsAt(attrs, name, p, x) && StandsAt(attrs, name, p, y)
    ensures x == y
  {}

  lemma PlacedOrder(attrs: seq<Attribute>, name: string, vs: seq<string>, ps: seq<(nat, nat)>, x: string, y: string)
    requires InPlace(attrs, name, vs, ps) && x in vs && y in vs && FirstIndex(vs, x) < FirstIndex(vs, y)
    ensures StandsBefore(attrs, name, x, y)
  {
    hide StandsAt;
    var a := FirstIndex(vs, x);
    assert StandsAt(attrs, name, ps[a], x);
    forall q | StandsAt(attrs, name, q, y) ensures Before(ps[a], q) {
      var t :| 0 <= t < |ps| && ps[t] == q;
      OneThere(attrs, name, q, y, vs[t]);
    }
  }

  // ----- Groups -----

  lemma {:induction false} MergedHolds(es: seq<Entry>, a: Attribute)
    ensures a in MergedAttributes(es) <==> exists i :: 0 <= i < |es| && a in es[i].attributes
  {
    InFlatten(Map((e: Entry) => e.attributes, es), a);
  }

  /** Some entry holds the value under an equivalent description. */
  ghost predicate SomeHolds(es: seq<Entry>, name: string, v: string) {
    exists i, p: (nat, nat) :: 0 <= i < |es| && StandsAt(es[i].attributes, name, p, v)
  }

  lemma MergedStands(es: seq<Entry>, name: string, v: string)
    ensures SomeHolds(es, name, v) <==> exists p: (nat, nat) :: StandsAt(MergedAttributes(es), name, p, v)
  {
    hide SameDescription, MergedAttributes;
    var all := MergedAttributes(es);
    if p: (nat, nat) :| StandsAt(all, name, p, v) {
      MergedHolds(es, all[p.0]);
      var i :| 0 <= i < |es| && all[p.0] in es[i].attributes;
      var j :| 0 <= j < |es[i].attributes| && es[i].attributes[j] == all[p.0];
      assert StandsAt(es[i].attributes, name, (j, p.1), v);
    }
    if i, p: (nat, nat) :| 0 <= i < |es| && StandsAt(es[i].attributes, name, p, v) {
      MergedHolds(es, es[i].attributes[p.0]);
      var j :| 0 <= j < |all| && all[j] == es[i].attributes[p.0];
      assert StandsAt(all, name, (j, p.1), v);
    }
  }

  /** What a group is described by: a value under a name exactly if that name is asked for and some entry found holds
      it there, not empty; and nothing is missing but a group of which nothing is found. */
  lemma DescriptionMeaning(cfg: Config, dir: Directory, group: string, name: string, x: string)
    requires dir.groups.Ok?
    ensures var found := Found(cfg, dir, dir.groups.value, group);
            var r := AttributesOf(cfg, dir, group);
            && (found == [] ==> r == Err(NoSuchGroup))
            && (found != [] ==>
                  && r.Ok?
                  && (x in ValuesUnder(r.value, Canonical(name)) <==>
                      Asked(cfg.groupAttributes, Canonical(name)) && SomeHolds(found, name, x)))
  {
    hide Found, Canonical, CopyList, AddAll, ValuesUnder, MergedAttributes, SomeHolds, StandsBefore, Asked;
    var found := Found(cfg, dir, dir.groups.value, group);
    CopiedAre(MergedAttributes(found), cfg.groupAttributes, name, x);
    MergedStands(found, name, x);
  }
}
