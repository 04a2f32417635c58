/** Copying the configured attributes out of directory entries: `copied` and `checkCopied` of ldapdir.go. */
module LdapCopied {
  import opened Basics
  import opened Faults
  import opened AttributeNames
  import opened AttributeLists
  import opened AttributeStore

  datatype RawConfig = Config(
    attributes: seq<string>,
    groupAttributes: seq<string>,
    userAttribute: string,
    totpAttribute: string,
    groupAttribute: string,
    memberAttribute: string,
    groupClasses: seq<string>)

  // ----- checkCopied -----

  /** An attribute the configuration reads for something else: one of `own`, whatever its case and options. */
  predicate TakenBy(name: string, own: seq<string>) {
    exists i :: 0 <= i < |own| && own[i] != "" && AttrType(name) == AttrType(own[i])
  }

  function CopyRefusal(names: seq<string>, own: seq<string>): Option<Fault> {
    if names == [] then None
    else if !Accepts(names[0]) then Some(AttributeName)
    else if TakenBy(names[0], own) then Some(ReadElsewhere)
    else CopyRefusal(names[1..], own)
  }

  function ConfigRefusal(cfg: RawConfig): Option<Fault> {
    var people := CopyRefusal(cfg.attributes, [cfg.totpAttribute]);
    if people.Some? then people
    else CopyRefusal(cfg.groupAttributes, [cfg.memberAttribute, cfg.groupAttribute])
  }

  /** A configuration that New accepted. */
  type Config = cfg: RawConfig | ConfigRefusal(cfg).None? witness RawConfig.Config([], [], "uid", "", "cn", "", [])

  method CheckNames(names: seq<string>, own: seq<string>) returns (r: Option<Fault>)
    ensures r == CopyRefusal(names, own)
  {
    for i := 0 to |names|
      invariant CopyRefusal(names, own) == CopyRefusal(names[i..], own)
    {
      hide Accepts, AttrType;
      assert names[i..][0] == names[i] && names[i..][1..] == names[i + 1..];
      if !Accepts(names[i]) {
        return Some(AttributeName);
      }
      for j := 0 to |own|
        invariant forall k :: 0 <= k < j ==> own[k] == "" || AttrType(names[i]) != AttrType(own[k])
      {
        if own[j] != "" && AttrType(names[i]) == AttrType(own[j]) {
          return Some(ReadElsewhere);
        }
      }
    }
    return None;
  }

  method CheckCopied(cfg: RawConfig) returns (r: Option<Fault>)
    ensures r == ConfigRefusal(cfg)
  {
    r := CheckNames(cfg.attributes, [cfg.totpAttribute]);
    if r.None? {
      r := CheckNames(cfg.groupAttributes, [cfg.memberAttribute, cfg.groupAttribute]);
    }
  }

  lemma {:induction false} NamesChecked(names: seq<string>, own: seq<string>)
    requires CopyRefusal(names, own).None?
    ensures forall n :: n in names ==> Accepts(n) && !TakenBy(n, own)
  {
    hide Accepts, TakenBy;
    if names != [] {
      NamesChecked(names[1..], own);
    }
  }

  /** What New refuses to copy stays uncopied under every spelling: the member attribute, the one that names
      groups, and the one that holds the second factor. */
  lemma OwnAttributesNotCopied(cfg: Config, name: string)
    ensures name in cfg.groupAttributes ==>
              && (cfg.memberAttribute != "" ==> !Equivalent(name, cfg.memberAttribute))
              && (cfg.groupAttribute != "" ==> !Equivalent(name, cfg.groupAttribute))
    ensures name in cfg.attributes && cfg.totpAttribute != "" ==> !Equivalent(name, cfg.totpAttribute)
  {
    var own := [cfg.memberAttribute, cfg.groupAttribute];
    NamesChecked(cfg.groupAttributes, own);
    NamesChecked(cfg.attributes, [cfg.totpAttribute]);
    assert own[0] == cfg.memberAttribute && own[1] == cfg.groupAttribute;
    assert [cfg.totpAttribute][0] == cfg.totpAttribute;
    NotEquivalent(name, cfg.memberAttribute);
    NotEquivalent(name, cfg.groupAttribute);
    NotEquivalent(name, cfg.totpAttribute);
  }

  lemma NotEquivalent(a: string, b: string)
    ensures AttrType(a) != AttrType(b) ==> !Equivalent(a, b)
  {
    if Equivalent(a, b) {
      EquivalentTypes(a, b);
    }
  }

  // ----- copied -----

  function NonEmpty(values: seq<string>): seq<string> {
    Filter((v: string) => v != "", values)
  }

  /** An entry's non-empty values under every spelling of a description, in the entry's order. */
  function ValuesOf(attrs: seq<Attribute>, name: string): seq<string> {
    if attrs == [] then [] else
      var last := attrs[|attrs| - 1];
      ValuesOf(attrs[..|attrs| - 1], name) + (if SameDescription(last.name, name) then NonEmpty(last.values) else [])
  }

  /** The attributes copied, each under the spelling configured. */
  function CopyList(attrs: seq<Attribute>, names: seq<string>): seq<Attribute> {
    if names == [] then [] else
      var last := names[|names| - 1];
      CopyList(attrs, names[..|names| - 1]) +
      (var vs := ValuesOf(attrs, last); if vs != [] then [Attribute(last, vs)] else [])
  }

  method Copied(attrs: seq<Attribute>, names: seq<string>) returns (r: Result<seq<Attribute>>)
    ensures r == Built(CopyList(attrs, names))
  {
    hide SameDescription, Accepts;
    var list: seq<Attribute> := [];
    for i := 0 to |names|
      invariant list == CopyList(attrs, names[..i])
    {
      assert names[..i + 1][..i] == names[..i];
      var values: seq<string> := [];
      for j := 0 to |attrs|
        invariant values == ValuesOf(attrs[..j], names[i])
      {
        assert attrs[..j + 1][..j] == attrs[..j];
        if SameDescription(attrs[j].name, names[i]) {
          var kept := DropEmpty(attrs[j].values);
          values := values + kept;
        }
      }
      assert attrs[..|attrs|] == attrs;
      if |values| > 0 {
        list := list + [Attribute(names[i], values)];
      }
    }
    assert names[..|names|] == names;
    var held := Slices(list);
    var built := NewAttributes(held);
    if built.Err? {
      return Err(built.error);
    }
    var all := built.value.All();
    return Ok(all);
  }

  method DropEmpty(values: seq<string>) returns (kept: seq<string>)
    ensures kept == NonEmpty(values)
  {
    kept := [];
    for i := 0 to |values|
      invariant kept == NonEmpty(values[..i])
    {
      assert values[..i + 1][..i] == values[..i];
      if values[i] != "" {
        kept := kept + [values[i]];
      }
    }
    assert values[..|values|] == values;
  }

  // ----- Once the names are checked, no entry can make it fail -----

  lemma {:induction false} ValuesNotEmpty(attrs: seq<Attribute>, name: string)
    ensures "" !in ValuesOf(attrs, name)
  {
    hide SameDescription;
    if attrs != [] {
      ValuesNotEmpty(attrs[..|attrs| - 1], name);
    }
  }

  lemma {:induction false} CopiesAccepted(attrs: seq<Attribute>, names: seq<string>)
    requires forall n :: n in names ==> Accepts(n)
    ensures forall a :: a in CopyList(attrs, names) ==> Accepts(a.name) && a.values != [] && "" !in a.values
  {
    hide Accepts, ValuesOf;
    if names != [] {
      CopiesAccepted(attrs, names[..|names| - 1]);
      ValuesNotEmpty(attrs, names[|names| - 1]);
    }
  }

  /** Copying cannot fail, on any entry, under a configuration that New accepted. */
  lemma CopiedCannotFail(cfg: Config, attrs: seq<Attribute>)
    ensures Built(CopyList(attrs, cfg.attributes)) == Ok(AddAll([], CopyList(attrs, cfg.attributes)))
    ensures Built(CopyList(attrs, cfg.groupAttributes)) == Ok(AddAll([], CopyList(attrs, cfg.groupAttributes)))
  {
    hide Accepts, CopyList, TakenBy;
    NamesChecked(cfg.attributes, [cfg.totpAttribute]);
    NamesChecked(cfg.groupAttributes, [cfg.memberAttribute, cfg.groupAttribute]);
    CopiesAccepted(attrs, cfg.attributes);
    CopiesAccepted(attrs, cfg.groupAttributes);
    NothingRefused(CopyList(attrs, cfg.attributes));
    NothingRefused(CopyList(attrs, cfg.groupAttributes));
  }

  // ----- What is copied -----

  lemma SameForEquivalent(name: string, m: string, n: string)
    requires Canonical(m) == Canonical(n)
    ensures SameDescription(name, m) == SameDescription(name, n)
  {
    CanonicalDecidesEquivalence(name, m);
    CanonicalDecidesEquivalence(name, n);
  }

  lemma {:induction false} ValuesForEquivalent(attrs: seq<Attribute>, m: string, n: string)
    requires Canonical(m) == Canonical(n)
    ensures ValuesOf(attrs, m) == ValuesOf(attrs, n)
  {
    hide SameDescription, Canonical;
    if attrs != [] {
      ValuesForEquivalent(attrs[..|attrs| - 1], m, n);
      SameForEquivalent(attrs[|attrs| - 1].name, m, n);
    }
  }

  ghost predicate Asked(names: seq<string>, key: string) {
    exists i :: 0 <= i < |names| && Canonical(names[i]) == key
  }

  /** Copied under `name` are the entry's non-empty values under any equivalent description, once each, in order,
      however often and in whatever spellings the configuration asks for it; and nothing that was not asked for. */
  lemma {:induction false} CopiedMeaning(attrs: seq<Attribute>, names: seq<string>, name: string)
    ensures ValuesUnder(AddAll([], CopyList(attrs, names)), Canonical(name)) ==
            if Asked(names, Canonical(name)) then Dedup(ValuesOf(attrs, name)) else []
  {
    hide Canonical, ValuesOf, CopyList, AddAll, ValuesUnder;
    ValuesAfterAddAll([], CopyList(attrs, names), Canonical(name));
    NothingUnder(Canonical(name));
    GatheredCopies(attrs, names, name);
  }

  lemma NothingUnder(key: string)
    ensures ValuesUnder([], key) == []
  {}

  lemma {:induction false} GatheredCopies(attrs: seq<Attribute>, names: seq<string>, name: string)
    ensures Dedup(Gathered(CopyList(attrs, names), Canonical(name))) ==
            if Asked(names, Canonical(name)) then Dedup(ValuesOf(attrs, name)) else []
  {
    hide Canonical, ValuesOf, Gathered;
    var key := Canonical(name);
    if names == [] {
      NothingGathered(key);
    } else {
      var init, last := names[..|names| - 1], names[|names| - 1];
      GatheredCopies(attrs, init, name);
      AskedLast(names, key);
      var vs := ValuesOf(attrs, last);
      var more := if vs != [] then [Attribute(last, vs)] else [];
      GatheredConcat(CopyList(attrs, init), more, key);
      GatheredOne(last, vs, key);
      NothingGathered(key);
      DedupConcat([], Gathered(CopyList(attrs, init), key), Gathered(more, key));
      if Canonical(last) == key {
        ValuesForEquivalent(attrs, last, name);
        DedupNothingNew(Dedup(vs), vs);
      }
    }
  }

  lemma NothingGathered(key: string)
    ensures Gathered([], key) == []
  {}

  lemma GatheredOne(name: string, values: seq<string>, key: string)
    ensures Gathered([Attribute(name, values)], key) == if Canonical(name) == key then values else []
  {
    hide Canonical;
    assert [Attribute(name, values)][..0] == [];
  }

  lemma AskedLast(names: seq<string>, key: string)
    requires names != []
    ensures Asked(names, key) <==> Asked(names[..|names| - 1], key) || Canonical(names[|names| - 1]) == key
  {
    hide Canonical;
    var init := names[..|names| - 1];
    if Asked(init, key) {
      var i :| 0 <= i < |init| && Canonical(init[i]) == key;
      assert names[i] == init[i];
    }
    if i :| 0 <= i < |names| && Canonical(names[i]) == key {
      assert i < |init| ==> init[i] == names[i];
    }
  }
}
