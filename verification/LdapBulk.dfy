/** Every group of a directory in one pass: ReadGroups of ldapdir.go, refining the per-group questions. */
module LdapBulk {
  import opened Basics
  import opened Faults
  import opened Folding
  import opened DnKey
  import opened PeopleIndex
  import opened AttributeNames
  import opened AttributeLists
  import opened Sources
  import opened LdapCopied
  import opened LdapGroups
  import opened LdapAnswers
  import opened LdapReading

  // ----- What to ask for -----

  /** The naming attribute, then each other attribute unless one asked for already is the same, case aside. */
  method Want(cfg: Config) returns (want: seq<string>)
    ensures want == WantOf(cfg)
  {
    hide Wanted;
    want := [cfg.groupAttribute];
    var more := MemberAttributes(cfg) + cfg.groupAttributes;
    for i := 0 to |more|
      invariant want == WantFrom([cfg.groupAttribute], more[..i])
    {
      assert more[..i + 1][..i] == more[..i];
      var there := IsWanted(want, more[i]);
      if !there {
        want := want + [more[i]];
      }
    }
    assert more[..|more|] == more;
  }

  method IsWanted(want: seq<string>, a: string) returns (there: bool)
    ensures there == Wanted(want, a)
  {
    hide EqualFold;
    for j := 0 to |want|
      invariant forall k :: 0 <= k < j ==> !EqualFold(want[k], a)
    {
      var same := EqualFoldText(want[j], a);
      if same {
        return true;
      }
    }
    return false;
  }

  // ----- Grouping the entries by folded name -----

  function EntriesAt(entries: map<string, seq<Entry>>, folded: string): seq<Entry> {
    if folded in entries then entries[folded] else []
  }

  /** The entries of every folded name, in the directory's order, and every spelling of it. */
  ghost predicate Grouped(cfg: Config, found: seq<Entry>, entries: map<string, seq<Entry>>,
        spellings: map<string, seq<string>>) {
    && (forall k :: EntriesAt(entries, k) == Filed(cfg, found, k))
    && (forall k :: k in spellings ==> forall n :: n in spellings[k] <==> n in AllNames(cfg, found) && ToLower(n) == k)
    && (forall k :: k in spellings ==> spellings[k] != [])
    && (forall n :: n in AllNames(cfg, found) ==> ToLower(n) in spellings)
  }

  /** Files an entry under each folded name once, however it spells it. */
  method FileEntry(cfg: Config, e: Entry, entries: map<string, seq<Entry>>) returns (out: map<string, seq<Entry>>)
    ensures forall k :: EntriesAt(out, k) == EntriesAt(entries, k) + (if IsNamed(cfg, e, k) then [e] else [])
  {
    hide NamesOf, ToLower;
    out := entries;
    var names := NamesOf(cfg, e);
    var seen: set<string> := {};
    for j := 0 to |names|
      invariant forall k :: k in seen <==> exists i :: 0 <= i < j && ToLower(names[i]) == k
      invariant forall k :: EntriesAt(out, k) ==
                  if k in seen then EntriesAt(entries, k) + [e] else EntriesAt(entries, k)
    {
      hide EntriesAt;
      var k := ToLower(names[j]);
      if k in seen {
        continue;
      }
      seen := seen + {k};
      EntryAdded(out, k, EntriesAt(out, k) + [e]);
      out := out[k := EntriesAt(out, k) + [e]];
    }
  }

  lemma EntryAdded(entries: map<string, seq<Entry>>, k: string, es: seq<Entry>)
    ensures forall h :: EntriesAt(entries[k := es], h) == if h == k then es else EntriesAt(entries, h)
  {
    var more := entries[k := es];
    forall h ensures EntriesAt(more, h) == if h == k then es else EntriesAt(entries, h) {}
  }

  /** Notes each spelling of each name once. */
  method NoteSpellings(names: seq<string>, spellings: map<string, seq<string>>) returns (out: map<string, seq<string>>)
    ensures forall k :: k in out <==> k in spellings || exists i :: 0 <= i < |names| && ToLower(names[i]) == k
    ensures forall k, n :: k in out ==>
              (n in out[k] <==> (k in spellings && n in spellings[k]) || (n in names && ToLower(n) == k))
    ensures (forall k :: k in spellings ==> spellings[k] != []) ==> forall k :: k in out ==> out[k] != []
  {
    hide ToLower;
    out := spellings;
    for j := 0 to |names|
      invariant forall k :: k in out <==> k in spellings || exists i :: 0 <= i < j && ToLower(names[i]) == k
      invariant forall k, n :: k in out ==>
                  (n in out[k] <==> (k in spellings && n in spellings[k]) || (n in names[..j] && ToLower(n) == k))
      invariant (forall k :: k in spellings ==> spellings[k] != []) ==> forall k :: k in out ==> out[k] != []
    {
      assert names[..j + 1] == names[..j] + [names[j]];
      var k := ToLower(names[j]);
      if k !in out {
        out := out[k := [names[j]]];
      } else if names[j] !in out[k] {
        out := out[k := out[k] + [names[j]]];
      }
    }
    assert names[..|names|] == names;
  }

  lemma FiledSnoc(cfg: Config, es: seq<Entry>, e: Entry, k: string)
    ensures Filed(cfg, es + [e], k) == Filed(cfg, es, k) + (if IsNamed(cfg, e, k) then [e] else [])
  {
    hide IsNamed;
    assert (es + [e])[..|es|] == es;
  }

  lemma NothingGrouped(cfg: Config)
    ensures Grouped(cfg, [], map[], map[])
  {}

  lemma GroupedStep(
      cfg: Config, found: seq<Entry>, e: Entry, entries: map<string, seq<Entry>>, spellings: map<string, seq<string>>,
      entries': map<string, seq<Entry>>, spellings': map<string, seq<string>>)
    requires Grouped(cfg, found, entries, spellings)
    requires forall k :: EntriesAt(entries', k) == EntriesAt(entries, k) + (if IsNamed(cfg, e, k) then [e] else [])
    requires var names := NamesOf(cfg, e);
             && (forall k :: k in spellings' <==>
                   k in spellings || exists i :: 0 <= i < |names| && ToLower(names[i]) == k)
             && (forall k, n :: k in spellings' ==>
                  (n in spellings'[k] <==> (k in spellings && n in spellings[k]) || (n in names && ToLower(n) == k)))
    requires (forall k :: k in spellings ==> spellings[k] != []) ==> forall k :: k in spellings' ==> spellings'[k] != []
    ensures Grouped(cfg, found + [e], entries', spellings')
  {
    hide NamesOf, ToLower, IsNamed, Filed, AllNames;
    var names := NamesOf(cfg, e);
    AllNamesSnoc(cfg, found, e);
    forall k ensures EntriesAt(entries', k) == Filed(cfg, found + [e], k) {
      FiledSnoc(cfg, found, e, k);
      assert EntriesAt(entries, k) == Filed(cfg, found, k);
    }
    forall n | n in AllNames(cfg, found + [e]) ensures ToLower(n) in spellings' {
      if n in names {
        var i :| 0 <= i < |names| && names[i] == n;
        assert ToLower(names[i]) == ToLower(n);
      }
    }
  }

  method GroupEntries(cfg: Config, found: seq<Entry>)
    returns (entries: map<string, seq<Entry>>, spellings: map<string, seq<string>>)
    ensures Grouped(cfg, found, entries, spellings)
  {
    hide Grouped, NamesOf, ToLower;
    entries, spellings := map[], map[];
    NothingGrouped(cfg);
    for i := 0 to |found|
      invariant Grouped(cfg, found[..i], entries, spellings)
    {
      var e := found[i];
      var more := FileEntry(cfg, e, entries);
      var spelled := NoteSpellings(NamesOf(cfg, e), spellings);
      GroupedStep(cfg, found[..i], e, entries, spellings, more, spelled);
      assert found[..i + 1] == found[..i] + [e];
      entries, spellings := more, spelled;
    }
    assert found[..|found|] == found;
  }

  // ----- Remembering what a value means -----

  /** Whether a member value is a DN and, if so, whom it names. */
  datatype Mapped = Mapped(isDN: bool, name: Option<string>)

  type Memo = map<(string, string), Mapped>

  /** Every value remembered means what working it out again would say, and no DN without the people. */
  ghost predicate Remembers(cfg: Config, dir: Directory, whom: Memo, index: Option<Index>) {
    forall key :: key in whom ==> IsMeaning(cfg, dir, key.0, key.1, whom[key]) && (whom[key].isDN ==> index.Some?)
  }

  ghost predicate IsMeaning(cfg: Config, dir: Directory, attr: string, value: string, m: Mapped) {
    && m.isDN == MemberDn(cfg, attr, value).Some?
    && (m.isDN ==> dir.people.Ok? && m.name == Means(cfg, Known(cfg, dir.people), attr, value))
  }

  lemma MeaningMeans(cfg: Config, dir: Directory, attr: string, value: string, m: Mapped)
    requires IsMeaning(cfg, dir, attr, value, m)
    ensures Means(cfg, Known(cfg, dir.people), attr, value) == if m.isDN then m.name else Some(value)
    ensures MemberDn(cfg, attr, value).Some? <==> m.isDN
    ensures m.isDN ==> dir.people.Ok?
  {
    hide MemberDn, Known;
  }

  lemma MeaningOf(cfg: Config, dir: Directory, attr: string, value: string, dn: Option<Dn>, name: Option<string>)
    requires dn == MemberDn(cfg, attr, value)
    requires dn.Some? ==> dir.people.Ok? && name == LinearSearch(Known(cfg, dir.people), dn.value)
    ensures IsMeaning(cfg, dir, attr, value, Mapped(dn.Some?, name))
  {
    hide MemberDn, Known, LinearSearch;
  }

  lemma RememberMore(
      cfg: Config, dir: Directory, whom: Memo, index: Option<Index>, attr: string, value: string, m: Mapped,
      index': Option<Index>)
    requires Remembers(cfg, dir, whom, index) && IsMeaning(cfg, dir, attr, value, m)
    requires index.Some? || m.isDN ==> index'.Some?
    ensures Remembers(cfg, dir, whom[(attr, value) := m], index')
  {
    hide IsMeaning;
  }

  /** What a value means, from memory or worked out now; the people are read when the first DN needs them. */
  method Recall(cfg: Config, dir: Directory, index: Option<Index>, whom: Memo, attr: string, value: string,
                ghost asked: nat)
    returns (r: Result<Mapped>, index': Option<Index>, whom': Memo, ghost asked': nat)
    requires Loaded(cfg, dir, index) && Remembers(cfg, dir, whom, index) && asked == SearchesBehind(index)
    ensures Loaded(cfg, dir, index') && Remembers(cfg, dir, whom', index')
    ensures match r
            case Ok(m) => && IsMeaning(cfg, dir, attr, value, m)
                          && asked' == SearchesBehind(index') && (index'.Some? <==> index.Some? || m.isDN)
            case Err(e) => dir.people == Err(e) && MemberDn(cfg, attr, value).Some? && asked' == 1
  {
    hide Loaded, IsMeaning, Indexes, MemberDn, Known, LinearSearch;
    index', whom', asked' := index, whom, asked;
    var key := (attr, value);
    if key in whom {
      return Ok(whom[key]), index', whom', asked';
    }
    var dn := MemberDnOf(cfg, attr, value);
    var name: Option<string> := None;
    if dn.Some? {
      var people;
      people, asked' := People(cfg, dir, index', asked');
      if people.Err? {
        return Err(people.error), index', whom', asked';
      }
      index' := Some(people.value);
      NowLoaded(cfg, dir, people.value);
      name := WhoIs(people.value, Known(cfg, dir.people), dn.value);
    }
    MeaningOf(cfg, dir, attr, value, dn, name);
    var m := Mapped(dn.Some?, name);
    RememberMore(cfg, dir, whom, index, attr, value, m, index');
    return Ok(m), index', whom[key := m], asked';
  }

  // ----- One group of the pass -----

  method ValuesHeard(cfg: Config, dir: Directory, index: Option<Index>, whom: Memo, members: seq<string>,
                     have: set<string>, attr: string, values: seq<string>, ghost occs: seq<(string, string)>,
                     ghost asked: nat)
    returns (fault: Option<Fault>, index': Option<Index>, whom': Memo, members': seq<string>, have': set<string>,
             ghost asked': nat)
    requires Loaded(cfg, dir, index) && Remembers(cfg, dir, whom, index) && Reads(cfg, dir, occs, None, members)
    requires (forall x :: x in have <==> x in members) && asked == SearchesBehind(index)
    ensures Loaded(cfg, dir, index') && Remembers(cfg, dir, whom', index')
    ensures Reads(cfg, dir, occs + Pairs(attr, values), fault, members')
    ensures fault.None? ==> forall x :: x in have' <==> x in members'
    ensures fault.None? ==>
              asked' == SearchesBehind(index') && (index'.Some? <==> index.Some? || HasDn(cfg, Pairs(attr, values)))
    ensures fault.Some? ==> dir.people == Err(fault.value) && asked' == 1
  {
    hide Reads, Loaded, Remembers, IsMeaning, MemberDn, Means, Known, HasDn;
    index', whom', members', have', asked' := index, whom, members, have, asked;
    NoDns(cfg);
    assert Pairs(attr, values[..0]) == [];
    assert occs + Pairs(attr, values[..0]) == occs;
    for k := 0 to |values|
      invariant Loaded(cfg, dir, index') && Remembers(cfg, dir, whom', index')
      invariant Reads(cfg, dir, occs + Pairs(attr, values[..k]), None, members')
      invariant forall x :: x in have' <==> x in members'
      invariant asked' == SearchesBehind(index') &&
          (index'.Some? <==> index.Some? || HasDn(cfg, Pairs(attr, values[..k])))
    {
      var v := values[k];
      ghost var before := occs + Pairs(attr, values[..k]);
      PairsStep(attr, values, k);
      Regroup(occs, Pairs(attr, values[..k]), [(attr, v)]);
      ReadsOne(cfg, dir, before, members', attr, v);
      var m;
      m, index', whom', asked' := Recall(cfg, dir, index', whom', attr, v, asked');
      OneMoreDn(cfg, Pairs(attr, values[..k]), attr, v);
      if m.Err? {
        Failed(cfg, dir, before + [(attr, v)], m.error, members');
        FailureStays(cfg, dir, before + [(attr, v)], Pairs(attr, values[k + 1..]), Some(m.error), members');
        Regroup(occs, Pairs(attr, values[..k + 1]), Pairs(attr, values[k + 1..]));
        return Some(m.error), index', whom', members', have', asked';
      }
      MeaningMeans(cfg, dir, attr, v, m.value);
      var name := v;
      if m.value.isDN {
        if m.value.name.None? {
          continue;
        }
        name := m.value.name.value;
      }
      if name !in have' {
        have' := have' + {name};
        members' := members' + [name];
      }
    }
    assert values[..|values|] == values;
    return None, index', whom', members', have', asked';
  }

  method GroupHeard(cfg: Config, dir: Directory, index: Option<Index>, whom: Memo, entries: seq<Entry>,
                    attrs: seq<string>, ghost asked: nat)
    returns (fault: Option<Fault>, index': Option<Index>, whom': Memo, members: seq<string>, merged: seq<Attribute>,
             ghost asked': nat)
    requires Loaded(cfg, dir, index) && Remembers(cfg, dir, whom, index) && asked == SearchesBehind(index)
    ensures Loaded(cfg, dir, index') && Remembers(cfg, dir, whom', index')
    ensures Reads(cfg, dir, Occurrences(entries, attrs), fault, members)
    ensures fault.None? ==> merged == MergedAttributes(entries)
    ensures fault.None? ==>
              && asked' == SearchesBehind(index')
              && (index'.Some? <==> index.Some? || HasDn(cfg, Occurrences(entries, attrs)))
    ensures fault.Some? ==> dir.people == Err(fault.value) && asked' == 1
  {
    hide Reads, Loaded, Remembers, Occurrences, ValuesIn, FirstValues, MergedAttributes, Pairs, HasDn;
    index', whom', members, merged, asked' := index, whom, [], [], asked;
    NoDns(cfg);
    var have: set<string> := {};
    NothingRead(cfg, dir);
    NothingMerged();
    NoOccurrences(entries, [], attrs);
    for i := 0 to |entries|
      invariant Loaded(cfg, dir, index') && Remembers(cfg, dir, whom', index')
      invariant Reads(cfg, dir, Occurrences(entries[..i], attrs), None, members)
      invariant forall x :: x in have <==> x in members
      invariant merged == MergedAttributes(entries[..i])
      invariant asked' == SearchesBehind(index')
      invariant index'.Some? <==> index.Some? || HasDn(cfg, Occurrences(entries[..i], attrs))
    {
      ghost var before, own := Occurrences(entries[..i], attrs), entries[i].attributes;
      MergedSnoc(entries[..i], entries[i]);
      assert entries[..i + 1] == entries[..i] + [entries[i]];
      merged := merged + entries[i].attributes;
      NoOccurrences(entries, own, attrs);
      assert before + [] == before;
      OccurrencesStep(entries, attrs, i);
      for j := 0 to |attrs|
        invariant Loaded(cfg, dir, index') && Remembers(cfg, dir, whom', index')
        invariant Reads(cfg, dir, before + ValuesIn(own, attrs[..j]), None, members)
        invariant forall x :: x in have <==> x in members
        invariant asked' == SearchesBehind(index')
        invariant index'.Some? <==> index.Some? || HasDn(cfg, before + ValuesIn(own, attrs[..j]))
      {
        var values := FirstValues(entries[i].attributes, attrs[j]);
        ValuesInStep(own, attrs, j);
        Regroup(before, ValuesIn(own, attrs[..j]), Pairs(attrs[j], values));
        fault, index', whom', members, have, asked' :=
          ValuesHeard(cfg, dir, index', whom', members, have, attrs[j], values, before + ValuesIn(own, attrs[..j]),
              asked');
        HasDnConcat(cfg, before + ValuesIn(own, attrs[..j]), Pairs(attrs[j], values));
        if fault.Some? {
          FailureStays(cfg, dir, before + ValuesIn(own, attrs[..j + 1]), ValuesIn(own, attrs[j + 1..]), fault, members);
          Regroup(before, ValuesIn(own, attrs[..j + 1]), ValuesIn(own, attrs[j + 1..]));
          FailureStays(cfg, dir, before + ValuesIn(own, attrs), Occurrences(entries[i + 1..], attrs), fault, members);
          return;
        }
      }
      assert attrs[..|attrs|] == attrs;
    }
    assert entries[..|entries|] == entries;
    fault := None;
  }

  // ----- The pass -----

  /** Filing what the search returned is reading what is filed. */
  lemma FiledIsRead(cfg: Config, dir: Directory, want: seq<string>, folded: string)
    requires dir.groups.Ok? && want == WantOf(cfg)
    ensures Filed(cfg, Search(dir.selects, dir.groups.value, want), folded) == ReadOf(cfg, dir, folded)
  {
    hide Filed, Search, Covered, WantOf;
    NamingCovered(cfg);
    FiledAnswered(cfg, dir.selects, dir.groups.value, want, folded);
  }

  /** Whether any member read of the entries filed under a folded name is a DN. */
  ghost predicate HasDnFiled(cfg: Config, dir: Directory, folded: string)
    requires dir.groups.Ok?
  {
    HasDn(cfg, Occurrences(ReadOf(cfg, dir, folded), MemberAttributes(cfg)))
  }

  lemma FaultHasDn(cfg: Config, dir: Directory, occs: seq<(string, string)>)
    ensures MembersAmong(cfg, dir.people, occs).Err? ==> HasDn(cfg, occs)
  {}

  /** Reads one group of the pass. */
  method GroupDataOf(cfg: Config, dir: Directory, folded: string, entries: seq<Entry>, index: Option<Index>, whom: Memo,
                     ghost asked: nat)
    returns (r: Result<GroupData>, index': Option<Index>, whom': Memo, ghost asked': nat)
    requires dir.groups.Ok? && entries == ReadOf(cfg, dir, folded)
    requires Loaded(cfg, dir, index) && Remembers(cfg, dir, whom, index) && asked == SearchesBehind(index)
    ensures Loaded(cfg, dir, index') && Remembers(cfg, dir, whom', index')
    ensures r == DataOf(cfg, dir, folded)
    ensures r.Ok? ==>
              asked' == SearchesBehind(index') && (index'.Some? <==> index.Some? || HasDnFiled(cfg, dir, folded))
    ensures r.Err? ==> dir.people == Err(r.error) && asked' == 1 && HasDnFiled(cfg, dir, folded)
  {
    hide HasDn, ReadOf, MembersAmong, Occurrences, MergedAttributes, CopyList, Loaded, Remembers, Reads, AddAll;
    var fault, members, merged;
    fault, index', whom', members, merged, asked' :=
      GroupHeard(cfg, dir, index, whom, entries, MemberAttributes(cfg), asked);
    HeardOutcome(cfg, dir, Occurrences(entries, MemberAttributes(cfg)), fault, members);
    if fault.Some? {
      FaultHasDn(cfg, dir, Occurrences(entries, MemberAttributes(cfg)));
      return Err(fault.value), index', whom', asked';
    }
    CopiedCannotFail(cfg, merged);
    ghost var attrs: Attrs := CopiedFrom(cfg, MergedAttributes(entries));
    var copied := Copied(merged, cfg.groupAttributes);
    assert copied == Ok(attrs);
    return Ok(GroupData(members, copied.value, cfg.groupClasses)), index', whom', asked';
  }

  /** Whether a group listed has a DN among its members, those of some folded names left aside. */
  ghost predicate AnyDn(cfg: Config, dir: Directory, aside: set<string>)
    requires dir.groups.Ok?
  {
    exists n :: n in AllNames(cfg, dir.groups.value) && ToLower(n) !in aside && HasDnFiled(cfg, dir, ToLower(n))
  }

  /** All groups from one search for the groups and, exactly when a member of one is a DN, one for the people. */
  method ReadGroups(cfg: Config, dir: Directory) returns (r: Result<map<string, GroupData>>, ghost asked: nat)
    ensures IsBulkRead(cfg, dir, r)
    ensures asked <= 1
    ensures asked == 1 <==> dir.groups.Ok? && AnyDn(cfg, dir, {})
  {
    hide HasDnFiled, AnyDn, Filed, Search, ReadOf, WantOf, AllNames, DataOf, Loaded, Remembers, ToLower, Covered;
    if dir.groups.Err? {
      return Err(dir.groups.error), 0;
    }
    var want := Want(cfg);
    var found := Search(dir.selects, dir.groups.value, want);
    var entries, spellings := GroupEntries(cfg, found);
    NamingCovered(cfg);
    AllNamesAnswered(cfg, dir.selects, dir.groups.value, want);
    ghost var listed := AllNames(cfg, dir.groups.value);
    var index: Option<Index> := None;
    var whom: Memo := map[];
    asked := 0;
    NothingYet(cfg, dir);
    NoDnYet(cfg, dir, spellings.Keys);
    var out: map<string, GroupData> := map[];
    var left := spellings.Keys;
    while left != {}
      invariant left <= spellings.Keys && Loaded(cfg, dir, index) && Remembers(cfg, dir, whom, index)
      invariant forall n :: n in out <==> n in listed && ToLower(n) !in left
      invariant forall n :: n in out ==> DataOf(cfg, dir, ToLower(n)) == Ok(out[n])
      invariant asked == SearchesBehind(index)
      invariant index.Some? <==> AnyDn(cfg, dir, left)
      decreases left
    {
      var k :| k in left;
      assert left - {k} + {k} == left;
      left := left - {k};
      var names := spellings[k];
      assert EntriesAt(entries, k) == Filed(cfg, found, k);
      FiledIsRead(cfg, dir, want, k);
      var data;
      data, index, whom, asked := GroupDataOf(cfg, dir, k, EntriesAt(entries, k), index, whom, asked);
      assert names[0] in names && names[0] in listed && ToLower(names[0]) == k;
      AnyDnStep(cfg, dir, left, names[0]);
      if data.Err? {
        assert names[0] in listed && DataOf(cfg, dir, ToLower(names[0])).Err?;
        return Err(data.error), asked;
      }
      out := Spell(out, names, data.value);
    }
    return Ok(out), asked;
  }

  lemma NoDnYet(cfg: Config, dir: Directory, all: set<string>)
    requires dir.groups.Ok? && forall n :: n in AllNames(cfg, dir.groups.value) ==> ToLower(n) in all
    ensures !AnyDn(cfg, dir, all)
  {}

  lemma AnyDnStep(cfg: Config, dir: Directory, left: set<string>, name: string)
    requires dir.groups.Ok? && name in AllNames(cfg, dir.groups.value) && ToLower(name) !in left
    ensures AnyDn(cfg, dir, left) <==> AnyDn(cfg, dir, left + {ToLower(name)}) || HasDnFiled(cfg, dir, ToLower(name))
    ensures AnyDn(cfg, dir, left) ==> AnyDn(cfg, dir, {})
  {
    hide HasDnFiled, AllNames, ToLower;
  }

  lemma NothingYet(cfg: Config, dir: Directory)
    ensures Loaded(cfg, dir, None) && Remembers(cfg, dir, map[], None)
  {}

  method Spell(had: map<string, GroupData>, names: seq<string>, data: GroupData) returns (out: map<string, GroupData>)
    ensures forall n :: n in out <==> n in had || n in names
    ensures forall n :: n in out ==> out[n] == if n in names then data else had[n]
  {
    out := had;
    for i := 0 to |names|
      invariant forall n :: n in out <==> n in had || n in names[..i]
      invariant forall n :: n in out ==> out[n] == if n in names[..i] then data else had[n]
    {
      assert names[..i + 1] == names[..i] + [names[i]];
      out := out[names[i] := data];
    }
    assert names[..|names|] == names;
  }
}
