/** The code that reads groups from a directory: ldapdir.go, against what LdapGroups says each question answers. */
module LdapReading {
  import opened Basics
  import opened Ordering
  import opened Faults
  import opened Folding
  import opened DnKey
  import opened PeopleIndex
  import opened AttributeLists
  import opened LdapCopied
  import opened LdapGroups
  import opened LdapAnswers

  // ----- Members, value by value -----

  lemma {:induction false} HeardConcat(cfg: Config, people: seq<Person>, a: seq<(string, string)>,
        b: seq<(string, string)>)
    ensures Heard(cfg, people, a + b) == Heard(cfg, people, a) + Heard(cfg, people, b)
  {
    hide Means;
    if b == [] {
      assert a + b == a;
    } else {
      var init, last := b[..|b| - 1], b[|b| - 1];
      HeardConcat(cfg, people, a, init);
      assert (a + b)[..|a + b| - 1] == a + init && (a + b)[|a + b| - 1] == last;
      Regroup(Heard(cfg, people, a), Heard(cfg, people, init),
              match Means(cfg, people, last.0, last.1) case Some(n) => [n] case None => []);
    }
  }

  lemma HasDnConcat(cfg: Config, a: seq<(string, string)>, b: seq<(string, string)>)
    ensures HasDn(cfg, a + b) <==> HasDn(cfg, a) || HasDn(cfg, b)
  {
    hide MemberDn;
    if i :| 0 <= i < |a| && MemberDn(cfg, a[i].0, a[i].1).Some? {
      assert (a + b)[i] == a[i];
    }
    if i :| 0 <= i < |b| && MemberDn(cfg, b[i].0, b[i].1).Some? {
      assert (a + b)[|a| + i] == b[i];
    }
  }

  /** The people index is read once, when the first DN needs it. */
  ghost predicate Loaded(cfg: Config, dir: Directory, index: Option<Index>) {
    index.Some? ==> dir.people.Ok? && Indexes(index.value, Known(cfg, dir.people))
  }

  /** How many people searches there have been, by the index they left. */
  function SearchesBehind(index: Option<Index>): nat {
    if index.Some? then 1 else 0
  }

  /** One people search, counted. */
  method SearchPeople(cfg: Config, dir: Directory, ghost asked: nat) returns (r: Result<seq<Entry>>, ghost asked': nat)
    ensures asked' == asked + 1
    ensures r == if dir.people.Err? then dir.people else Ok(Search(dir.selects, dir.people.value, [cfg.userAttribute]))
  {
    asked' := asked + 1;
    r := if dir.people.Err? then dir.people else Ok(Search(dir.selects, dir.people.value, [cfg.userAttribute]));
  }

  /** The people, searched for if they have not been. */
  method People(cfg: Config, dir: Directory, index: Option<Index>, ghost asked: nat)
    returns (r: Result<Index>, ghost asked': nat)
    requires Loaded(cfg, dir, index) && asked == SearchesBehind(index)
    ensures asked' == 1
    ensures if dir.people.Err? then r == Err(dir.people.error)
            else r.Ok? && Indexes(r.value, Known(cfg, dir.people))
  {
    hide Indexes;
    if index.Some? {
      return Ok(index.value), asked;
    }
    var found;
    found, asked' := SearchPeople(cfg, dir, asked);
    if found.Err? {
      return Err(found.error), asked';
    }
    PeopleAnswered(cfg, dir.selects, dir.people.value);
    var people := Imported(PeopleIn(cfg, found.value));
    r := Ok(people);
  }

  method MemberDnOf(cfg: Config, attr: string, value: string) returns (dn: Option<Dn>)
    ensures dn == MemberDn(cfg, attr, value)
  {
    hide EqualFold;
    var isMember := EqualFoldText(attr, "member");
    var isUnique := EqualFoldText(attr, "uniqueMember");
    var dnSyntax := isMember || isUnique;
    if !dnSyntax && cfg.memberAttribute == "" {
      return None;
    }
    dn := PARSE_DN(value);
    if dn.None? || |dn.value| == 0 {
      return if dnSyntax then Some([]) else None;
    }
  }

  function Pairs(attr: string, values: seq<string>): seq<(string, string)> {
    Map((v: string) => (attr, v), values)
  }

  /** What reading some member values has come to: the names so far, or the failure of the people search. */
  ghost predicate Reads(cfg: Config, dir: Directory, occs: seq<(string, string)>, fault: Option<Fault>,
        members: seq<string>) {
    if fault.None? then MembersAmong(cfg, dir.people, occs) == Ok(members)
    else MembersAmong(cfg, dir.people, occs) == Err(fault.value)
  }

  /** One more value, behind those read. */
  lemma ReadsOne(cfg: Config, dir: Directory, occs: seq<(string, string)>, members: seq<string>, attr: string,
        v: string)
    requires Reads(cfg, dir, occs, None, members)
    ensures MemberDn(cfg, attr, v).Some? && dir.people.Err? ==>
              MembersAmong(cfg, dir.people, occs + [(attr, v)]) == Err(dir.people.error)
    ensures MemberDn(cfg, attr, v).None? || dir.people.Ok? ==>
              Reads(cfg, dir, occs + [(attr, v)], None,
                    match Means(cfg, Known(cfg, dir.people), attr, v)
                    case Some(n) => if n in members then members else members + [n]
                    case None => members)
  {
    hide MemberDn, Means, Known;
    var known := Known(cfg, dir.people);
    HasDnConcat(cfg, occs, [(attr, v)]);
    assert [(attr, v)][0] == (attr, v) && [(attr, v)][..0] == [];
    HeardConcat(cfg, known, occs, [(attr, v)]);
    match Means(cfg, known, attr, v) {
      case Some(n) =>
        DedupSnoc([], Heard(cfg, known, occs), n);
      case None =>
        assert Heard(cfg, known, occs) + [] == Heard(cfg, known, occs);
    }
  }

  lemma NothingRead(cfg: Config, dir: Directory)
    ensures Reads(cfg, dir, [], None, [])
  {
    DedupNothing<string>([]);
  }

  /** A failure already met is the failure of anything that includes it. */
  lemma FailureStays(cfg: Config, dir: Directory, occs: seq<(string, string)>, more: seq<(string, string)>,
        fault: Option<Fault>, members: seq<string>)
    requires Reads(cfg, dir, occs, fault, members) && fault.Some?
    ensures Reads(cfg, dir, occs + more, fault, members)
  {
    HasDnConcat(cfg, occs, more);
  }

  lemma PairsStep(attr: string, values: seq<string>, k: nat)
    requires k < |values|
    ensures Pairs(attr, values[..k + 1]) == Pairs(attr, values[..k]) + [(attr, values[k])]
    ensures Pairs(attr, values) == Pairs(attr, values[..k + 1]) + Pairs(attr, values[k + 1..])
  {
    assert values == values[..k + 1] + values[k + 1..];
  }

  // ----- One group at a time -----

  method MembersFrom(cfg: Config, dir: Directory, index: Option<Index>, members: seq<string>, have: set<string>,
                     attr: string, values: seq<string>, ghost occs: seq<(string, string)>, ghost asked: nat)
    returns (fault: Option<Fault>, index': Option<Index>, members': seq<string>, have': set<string>, ghost asked': nat)
    requires Loaded(cfg, dir, index) && Reads(cfg, dir, occs, None, members)
    requires asked == SearchesBehind(index) && (index.Some? <==> HasDn(cfg, occs))
    requires forall x :: x in have <==> x in members
    ensures Loaded(cfg, dir, index') && Reads(cfg, dir, occs + Pairs(attr, values), fault, members')
    ensures fault.None? ==> forall x :: x in have' <==> x in members'
    ensures if fault.None? then
              asked' == SearchesBehind(index') && (index'.Some? <==> HasDn(cfg, occs + Pairs(attr, values)))
            else asked' == 1 && HasDn(cfg, occs + Pairs(attr, values))
  {
    hide Reads, Loaded, Indexes, MemberDn, HasDn;
    index', members', have', asked' := index, members, have, asked;
    assert occs + Pairs(attr, values[..0]) == occs;
    for k := 0 to |values|
      invariant Loaded(cfg, dir, index') && Reads(cfg, dir, occs + Pairs(attr, values[..k]), None, members')
      invariant forall x :: x in have' <==> x in members'
      invariant asked' == SearchesBehind(index') && (index'.Some? <==> HasDn(cfg, occs + Pairs(attr, values[..k])))
    {
      var v := values[k];
      ghost var before := occs + Pairs(attr, values[..k]);
      PairsStep(attr, values, k);
      Regroup(occs, Pairs(attr, values[..k]), [(attr, v)]);
      ReadsOne(cfg, dir, before, members', attr, v);
      OneMoreDn(cfg, before, attr, v);
      var dn := MemberDnOf(cfg, attr, v);
      var name := Some(v);
      if dn.Some? {
        var people;
        people, asked' := People(cfg, dir, index', asked');
        if people.Err? {
          Failed(cfg, dir, before + [(attr, v)], people.error, members');
          FailureStays(cfg, dir, before + [(attr, v)], Pairs(attr, values[k + 1..]), Some(people.error), members');
          Regroup(occs, Pairs(attr, values[..k + 1]), Pairs(attr, values[k + 1..]));
          HasDnConcat(cfg, before + [(attr, v)], Pairs(attr, values[k + 1..]));
          return Some(people.error), index', members', have', asked';
        }
        index' := Some(people.value);
        NowLoaded(cfg, dir, people.value);
        name := WhoIs(people.value, Known(cfg, dir.people), dn.value);
      }
      if name.Some? && name.value !in have' {
        have' := have' + {name.value};
        members' := members' + [name.value];
      }
    }
    assert values[..|values|] == values;
    return None, index', members', have', asked';
  }

  lemma OneMoreDn(cfg: Config, occs: seq<(string, string)>, attr: string, v: string)
    ensures HasDn(cfg, occs + [(attr, v)]) <==> HasDn(cfg, occs) || MemberDn(cfg, attr, v).Some?
  {
    hide MemberDn;
    HasDnConcat(cfg, occs, [(attr, v)]);
    assert [(attr, v)][0] == (attr, v);
  }

  lemma Failed(cfg: Config, dir: Directory, occs: seq<(string, string)>, e: Fault, members: seq<string>)
    requires MembersAmong(cfg, dir.people, occs) == Err(e)
    ensures Reads(cfg, dir, occs, Some(e), members)
  {}

  lemma NowLoaded(cfg: Config, dir: Directory, index: Index)
    requires dir.people.Ok? && Indexes(index, Known(cfg, dir.people))
    ensures Loaded(cfg, dir, Some(index))
  {}

  /** Whether any of a group's members is a DN. */
  ghost predicate NeedsPeople(cfg: Config, dir: Directory, group: string) {
    var found := FoundOf(cfg, dir, group);
    found.Ok? && HasDn(cfg, Occurrences(found.value, MemberAttributes(cfg)))
  }

  /** One group's members, with one people search if a member is a DN, and none if not. */
  method Members(cfg: Config, dir: Directory, group: string) returns (r: Result<seq<string>>, ghost asked: nat)
    ensures r == MembersOf(cfg, dir, group)
    ensures asked == if NeedsPeople(cfg, dir, group) then 1 else 0
  {
    hide HasDn, Reads, Loaded, Found, Search, Occurrences, ValuesIn, MembersAmong, FirstValues;
    if dir.groups.Err? {
      return Err(dir.groups.error), 0;
    }
    var attrs := MemberAttributes(cfg);
    var found := Found(cfg, dir, dir.groups.value, group);
    var entries := Search(dir.selects, found, attrs);
    SearchLength(dir.selects, found, attrs);
    if |entries| == 0 {
      return Err(NoSuchGroup), 0;
    }
    WantItself(attrs);
    OccurrencesAnswered(dir.selects, found, attrs, attrs);
    var fault, members;
    fault, members, asked := MembersAcross(cfg, dir, entries, attrs);
    HeardOutcome(cfg, dir, Occurrences(entries, attrs), fault, members);
    r := if fault.Some? then Err(fault.value) else Ok(members);
  }

  lemma SearchLength(sel: Selection, es: seq<Entry>, want: seq<string>)
    ensures |Search(sel, es, want)| == |es|
  {}

  lemma HeardOutcome(cfg: Config, dir: Directory, occs: seq<(string, string)>, fault: Option<Fault>,
        members: seq<string>)
    requires Reads(cfg, dir, occs, fault, members)
    ensures MembersAmong(cfg, dir.people, occs) == if fault.Some? then Err(fault.value) else Ok(members)
  {}

  lemma WantItself(want: seq<string>)
    ensures forall a :: a in want ==> Covered(want, a)
  {
    forall a | a in want ensures Covered(want, a) {
      SameAsItself(a);
      var i :| 0 <= i < |want| && want[i] == a;
      assert EqualFold(want[i], a);
    }
  }

  lemma OccurrencesStep(entries: seq<Entry>, attrs: seq<string>, i: nat)
    requires i < |entries|
    ensures Occurrences(entries[..i + 1], attrs) ==
            Occurrences(entries[..i], attrs) + ValuesIn(entries[i].attributes, attrs)
    ensures Occurrences(entries, attrs) == Occurrences(entries[..i + 1], attrs) + Occurrences(entries[i + 1..], attrs)
  {
    hide ValuesIn;
    assert entries[..i + 1][..i] == entries[..i];
    OccurrencesConcat(entries[..i + 1], entries[i + 1..], attrs);
    assert entries == entries[..i + 1] + entries[i + 1..];
  }

  lemma {:induction false} OccurrencesConcat(a: seq<Entry>, b: seq<Entry>, attrs: seq<string>)
    ensures Occurrences(a + b, attrs) == Occurrences(a, attrs) + Occurrences(b, attrs)
  {
    hide ValuesIn;
    if b == [] {
      assert a + b == a;
    } else {
      var init := b[..|b| - 1];
      OccurrencesConcat(a, init, attrs);
      assert (a + b)[..|a + b| - 1] == a + init;
      Regroup(Occurrences(a, attrs), Occurrences(init, attrs), ValuesIn(b[|b| - 1].attributes, attrs));
    }
  }

  lemma ValuesInStep(own: seq<Attribute>, attrs: seq<string>, j: nat)
    requires j < |attrs|
    ensures ValuesIn(own, attrs[..j + 1]) == ValuesIn(own, attrs[..j]) + Pairs(attrs[j], FirstValues(own, attrs[j]))
    ensures ValuesIn(own, attrs) == ValuesIn(own, attrs[..j + 1]) + ValuesIn(own, attrs[j + 1..])
  {
    assert attrs[..j + 1][..j] == attrs[..j];
    ValuesInConcat(own, attrs[..j + 1], attrs[j + 1..]);
    assert attrs == attrs[..j + 1] + attrs[j + 1..];
  }

  lemma {:induction false} ValuesInConcat(own: seq<Attribute>, a: seq<string>, b: seq<string>)
    ensures ValuesIn(own, a + b) == ValuesIn(own, a) + ValuesIn(own, b)
  {
    hide FirstValues;
    if b == [] {
      assert a + b == a;
    } else {
      var init, last := b[..|b| - 1], b[|b| - 1];
      ValuesInConcat(own, a, init);
      assert (a + b)[..|a + b| - 1] == a + init && (a + b)[|a + b| - 1] == last;
      Regroup(ValuesIn(own, a), ValuesIn(own, init), Pairs(last, FirstValues(own, last)));
    }
  }

  lemma NoOccurrences(entries: seq<Entry>, own: seq<Attribute>, attrs: seq<string>)
    ensures Occurrences(entries[..0], attrs) == [] && Occurrences([], attrs) == [] && ValuesIn(own, attrs[..0]) == []
  {}

  lemma NoDns(cfg: Config)
    ensures !HasDn(cfg, [])
  {}

  method MembersAcross(cfg: Config, dir: Directory, entries: seq<Entry>, attrs: seq<string>)
    returns (fault: Option<Fault>, members: seq<string>, ghost asked: nat)
    ensures Reads(cfg, dir, Occurrences(entries, attrs), fault, members)
    ensures asked == if HasDn(cfg, Occurrences(entries, attrs)) then 1 else 0
  {
    hide Reads, Occurrences, ValuesIn, FirstValues, Indexes, Pairs, HasDn;
    var index: Option<Index> := None;
    var have: set<string> := {};
    members, asked := [], 0;
    NoDns(cfg);
    NothingRead(cfg, dir);
    NoOccurrences(entries, [], attrs);
    for i := 0 to |entries|
      invariant Loaded(cfg, dir, index) && Reads(cfg, dir, Occurrences(entries[..i], attrs), None, members)
      invariant asked == SearchesBehind(index) && (index.Some? <==> HasDn(cfg, Occurrences(entries[..i], attrs)))
      invariant forall x :: x in have <==> x in members
    {
      ghost var before, own := Occurrences(entries[..i], attrs), entries[i].attributes;
      NoOccurrences(entries, own, attrs);
      assert before + [] == before;
      OccurrencesStep(entries, attrs, i);
      for j := 0 to |attrs|
        invariant Loaded(cfg, dir, index) && Reads(cfg, dir, before + ValuesIn(own, attrs[..j]), None, members)
        invariant forall x :: x in have <==> x in members
        invariant asked == SearchesBehind(index) && (index.Some? <==> HasDn(cfg, before + ValuesIn(own, attrs[..j])))
      {
        var values := FirstValues(entries[i].attributes, attrs[j]);
        ValuesInStep(own, attrs, j);
        Regroup(before, ValuesIn(own, attrs[..j]), Pairs(attrs[j], values));
        fault, index, members, have, asked :=
          MembersFrom(cfg, dir, index, members, have, attrs[j], values, before + ValuesIn(own, attrs[..j]), asked);
        if fault.Some? {
          FailureStays(cfg, dir, before + ValuesIn(own, attrs[..j + 1]), ValuesIn(own, attrs[j + 1..]), fault, members);
          Regroup(before, ValuesIn(own, attrs[..j + 1]), ValuesIn(own, attrs[j + 1..]));
          FailureStays(cfg, dir, before + ValuesIn(own, attrs), Occurrences(entries[i + 1..], attrs), fault, members);
          HasDnConcat(cfg, before + ValuesIn(own, attrs[..j + 1]), ValuesIn(own, attrs[j + 1..]));
          HasDnConcat(cfg, before + ValuesIn(own, attrs), Occurrences(entries[i + 1..], attrs));
          return;
        }
      }
      assert attrs[..|attrs|] == attrs;
    }
    assert entries[..|entries|] == entries;
    fault := None;
  }

  /** The entries of one group, with the attributes asked for put in one list. */
  method Group(cfg: Config, dir: Directory, group: string, attrs: seq<string>) returns (r: Result<seq<Attribute>>)
    ensures FoundOf(cfg, dir, group).Err? ==> r == Err(FoundOf(cfg, dir, group).error)
    ensures FoundOf(cfg, dir, group).Ok? ==>
              var want := if attrs == [] then ["1.1"] else attrs;
              r == Ok(MergedAttributes(Search(dir.selects, FoundOf(cfg, dir, group).value, want)))
  {
    hide Found, Search, MergedAttributes;
    if dir.groups.Err? {
      return Err(dir.groups.error);
    }
    var want := if attrs == [] then ["1.1"] else attrs;
    var found := Found(cfg, dir, dir.groups.value, group);
    var entries := Search(dir.selects, found, want);
    SearchLength(dir.selects, found, want);
    if |entries| == 0 {
      return Err(NoSuchGroup);
    }
    var merged: seq<Attribute> := [];
    NothingMerged();
    for i := 0 to |entries|
      invariant merged == MergedAttributes(entries[..i])
    {
      MergedSnoc(entries[..i], entries[i]);
      assert entries[..i + 1] == entries[..i] + [entries[i]];
      merged := merged + entries[i].attributes;
    }
    assert entries[..|entries|] == entries;
    return Ok(merged);
  }

  lemma NothingMerged()
    ensures MergedAttributes([]) == []
  {}

  method GroupAttributes(cfg: Config, dir: Directory, group: string) returns (r: Result<seq<Attribute>>)
    ensures r == AttributesOf(cfg, dir, group)
  {
    hide FoundOf, CopyList, MergedAttributes, Search, AddAll;
    var merged := Group(cfg, dir, group, cfg.groupAttributes);
    if merged.Err? {
      return Err(merged.error);
    }
    WantItself(cfg.groupAttributes);
    ghost var found := FoundOf(cfg, dir, group).value;
    if cfg.groupAttributes != [] {
      CopiedAnswered(cfg, dir.selects, found, cfg.groupAttributes);
    } else {
      NothingCopied(merged.value, MergedAttributes(found));
    }
    CopiedCannotFail(cfg, merged.value);
    r := Copied(merged.value, cfg.groupAttributes);
  }

  lemma NothingCopied(a: seq<Attribute>, b: seq<Attribute>)
    ensures CopyList(a, []) == CopyList(b, [])
  {}

  method GroupObjectClasses(cfg: Config, dir: Directory, group: string) returns (r: Result<seq<string>>)
    ensures r == ClassesOf(cfg, dir, group)
  {
    hide FoundOf, MergedAttributes, Search;
    var found := Group(cfg, dir, group, []);
    return if found.Err? then Err(found.error) else Ok(cfg.groupClasses);
  }

  method GroupNames(cfg: Config, dir: Directory) returns (r: Result<seq<string>>)
    ensures r == NamesListed(cfg, dir)
  {
    hide SortedSet, NamesOf;
    if dir.groups.Err? {
      return Err(dir.groups.error);
    }
    var want := [cfg.groupAttribute];
    var entries := Search(dir.selects, dir.groups.value, want);
    WantItself(want);
    assert want[0] in want;
    AllNamesAnswered(cfg, dir.selects, dir.groups.value, want);
    var names := NamesAcross(cfg, entries);
    return Ok(SortedSet(StringLe, names));
  }

  method NamesAcross(cfg: Config, entries: seq<Entry>) returns (names: seq<string>)
    ensures names == AllNames(cfg, entries)
  {
    names := [];
    for i := 0 to |entries|
      invariant names == AllNames(cfg, entries[..i])
    {
      AllNamesSnoc(cfg, entries[..i], entries[i]);
      assert entries[..i + 1] == entries[..i] + [entries[i]];
      names := names + NamesOf(cfg, entries[i]);
    }
    assert entries[..|entries|] == entries;
  }

  lemma AllNamesSnoc(cfg: Config, es: seq<Entry>, e: Entry)
    ensures AllNames(cfg, es + [e]) == AllNames(cfg, es) + NamesOf(cfg, e)
  {
    var f := (x: Entry) => NamesOf(cfg, x);
    assert Map(f, es + [e]) == Map(f, es) + [NamesOf(cfg, e)];
    FlattenSnoc(Map(f, es), NamesOf(cfg, e));
  }
}
