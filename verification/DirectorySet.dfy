/** Several sources read as one: the Set of source.go, its frozen copy, and Expand. */
module DirectorySet {
  import opened Basics
  import opened Ordering
  import opened Faults
  import opened AttributeLists
  import opened AttributeStore
  import opened Sources
  import opened Nesting

  // ----- What the merged answers mean -----

  /** The first answer that gives an attribute. */
  function FirstGiver(rs: seq<Result<Attrs>>, key: string): seq<string> {
    if rs == [] then []
    else if rs[0].Ok? && key in Keys(rs[0].value) then ValuesUnder(rs[0].value, key)
    else FirstGiver(rs[1..], key)
  }

  ghost predicate Given(rs: seq<Result<Attrs>>, key: string) {
    exists i :: 0 <= i < |rs| && rs[i].Ok? && key in Keys(rs[i].value)
  }

  lemma GivenTail(rs: seq<Result<Attrs>>, key: string)
    requires rs != []
    ensures Given(rs, key) <==> (rs[0].Ok? && key in Keys(rs[0].value)) || Given(rs[1..], key)
  {
    hide Keys;
    if Given(rs, key) && !(rs[0].Ok? && key in Keys(rs[0].value)) {
      var i :| 0 <= i < |rs| && rs[i].Ok? && key in Keys(rs[i].value);
      assert rs[1..][i - 1] == rs[i];
    }
    if Given(rs[1..], key) {
      var i :| 0 <= i < |rs[1..]| && rs[1..][i].Ok? && key in Keys(rs[1..][i].value);
      assert rs[i + 1] == rs[1..][i];
    }
  }

  lemma {:induction false} FirstGiverSnoc(rs: seq<Result<Attrs>>, r: Result<Attrs>, key: string)
    ensures FirstGiver(rs + [r], key) ==
            if Given(rs, key) then FirstGiver(rs, key)
            else if r.Ok? then ValuesUnder(r.value, key) else []
  {
    hide Keys, Given, ValuesUnder;
    if rs == [] {
      assert rs + [r] == [r] && [r][1..] == [];
      NothingGiven(key);
      if r.Ok? {
        NoValues(r.value, key);
      }
    } else {
      assert (rs + [r])[1..] == rs[1..] + [r];
      FirstGiverSnoc(rs[1..], r, key);
      GivenTail(rs, key);
    }
  }

  lemma NothingGiven(key: string)
    ensures !Given([], key)
  {}

  /** Attribute by attribute, the values are the first giver's, whole; and nothing else is there. */
  lemma {:induction false} AttributesMeaning(rs: seq<Result<Attrs>>, key: string)
    ensures ValuesUnder(UnderAll(rs), key) == FirstGiver(rs, key)
    ensures key in Keys(UnderAll(rs)) <==> Given(rs, key)
  {
    hide Keys, UnderOf, ValuesUnder;
    if rs == [] {
      NoKeys();
      NoValues([], key);
    } else {
      var init, last := rs[..|rs| - 1], rs[|rs| - 1];
      AttributesMeaning(init, key);
      FirstGiverSnoc(init, last, key);
      assert rs == init + [last];
      GivenSnoc(init, last, key);
      NoValues(UnderAll(init), key);
      if last.Ok? {
        UnderOwner(UnderAll(init), last.value, key);
        UnderKeys(UnderAll(init), last.value);
      }
    }
  }

  lemma NoValues(l: seq<Attribute>, key: string)
    ensures key !in Keys(l) ==> ValuesUnder(l, key) == []
  {}

  lemma GivenSnoc(rs: seq<Result<Attrs>>, r: Result<Attrs>, key: string)
    ensures Given(rs + [r], key) <==> Given(rs, key) || (r.Ok? && key in Keys(r.value))
  {
    hide Keys;
    if Given(rs, key) {
      var i :| 0 <= i < |rs| && rs[i].Ok? && key in Keys(rs[i].value);
      assert (rs + [r])[i] == rs[i];
    }
    assert (rs + [r])[|rs|] == r;
  }

  // ----- Freezing -----

  function AnswerFrom<T>(groups: map<string, GroupData>, group: string, field: GroupData -> T): Result<T> {
    if group in groups then Ok(field(groups[group])) else Err(NoSuchGroup)
  }

  /** A source that answers the group questions from what was read. */
  ghost predicate IsFrozen(src: Source, groups: map<string, GroupData>, out: Source) {
    && out.describe == src.describe && out.people == src.people && out.bulk == None
    && out.attributes.Some? && out.classes.Some? && out.names.Some? && out.names.value.Ok?
    && (forall g :: out.members(g) == AnswerFrom(groups, g, (d: GroupData) => d.members))
    && (forall g :: out.AskAttributes(g) == AnswerFrom(groups, g, (d: GroupData) => d.attributes))
    && (forall g :: out.AskClasses(g) == AnswerFrom(groups, g, (d: GroupData) => d.classes))
    && Sorted(StringLe, out.names.value.value) && NoRepeats(out.names.value.value)
    && (forall n :: n in out.names.value.value <==> n in groups)
  }

  ghost predicate Froze(src: Source, out: Source) {
    match src.bulk
    case None => out == src
    case Some(read) => read.Ok? && IsFrozen(src, read.value, out)
  }

  /** The promise of GroupReader, for one name: the groups read answer as the source does. */
  ghost predicate AgreesAt(src: Source, group: string) {
    src.bulk.Some? && src.bulk.value.Ok? ==>
      var groups := src.bulk.value.value;
      && src.members(group) == AnswerFrom(groups, group, (d: GroupData) => d.members)
      && src.AskAttributes(group) == AnswerFrom(groups, group, (d: GroupData) => d.attributes)
      && src.AskClasses(group) == AnswerFrom(groups, group, (d: GroupData) => d.classes)
  }

  /** The promise of GroupReader about names: the map holds exactly the groups listed. */
  ghost predicate ListsWhatItReads(src: Source) {
    src.bulk.Some? && src.bulk.value.Ok? ==>
      && src.names.Some? && src.names.value.Ok?
      && forall n :: n in src.names.value.value <==> n in src.bulk.value.value
  }

  /** If every source that reads in bulk keeps its promise at a name, freezing the set changes no answer about it. */
  lemma FrozenAnswers(ss: seq<Source>, frozen: seq<Source>, group: string)
    requires |frozen| == |ss| && forall i :: 0 <= i < |ss| ==> Froze(ss[i], frozen[i])
    requires forall i :: 0 <= i < |ss| ==> AgreesAt(ss[i], group)
    ensures AsSource(frozen).members(group) == AsSource(ss).members(group)
    ensures AsSource(frozen).AskAttributes(group) == AsSource(ss).AskAttributes(group)
    ensures AsSource(frozen).AskClasses(group) == AsSource(ss).AskClasses(group)
    ensures AsSource(frozen).people == AsSource(ss).people
  {
    forall i | 0 <= i < |ss|
      ensures frozen[i].members(group) == ss[i].members(group)
      ensures frozen[i].AskAttributes(group) == ss[i].AskAttributes(group)
      ensures frozen[i].AskClasses(group) == ss[i].AskClasses(group)
      ensures frozen[i].people == ss[i].people
    {
      assert Froze(ss[i], frozen[i]) && AgreesAt(ss[i], group);
    }
    assert Map((s: Source) => s.members(group), frozen) == Map((s: Source) => s.members(group), ss);
    assert Map((s: Source) => s.AskAttributes(group), frozen) == Map((s: Source) => s.AskAttributes(group), ss);
    assert Map((s: Source) => s.AskClasses(group), frozen) == Map((s: Source) => s.AskClasses(group), ss);
    assert Map((s: Source) => s.people, frozen) == Map((s: Source) => s.people, ss);
    MembersOfSet(ss, group);
    MembersOfSet(frozen, group);
  }

  /** ... and the groups listed are the same, in the same order. */
  lemma FrozenNames(ss: seq<Source>, frozen: seq<Source>)
    requires |frozen| == |ss| && forall i :: 0 <= i < |ss| ==> Froze(ss[i], frozen[i])
    requires forall i :: 0 <= i < |ss| ==> ListsWhatItReads(ss[i])
    ensures AsSource(frozen).names == AsSource(ss).names
  {
    var p, q := Map((s: Source) => s.names, frozen), Map((s: Source) => s.names, ss);
    forall i | 0 <= i < |ss| ensures SameNames(p[i], q[i]) {
      assert Froze(ss[i], frozen[i]) && ListsWhatItReads(ss[i]);
    }
    ListedAlike(p, q);
    StringTotalOrder();
    SortedSetUnique(StringLe, Gained(Listed(p)), Gained(Listed(q)));
    assert Gained(Listed(p)) != [] ==> Gained(Listed(p))[0] in Gained(Listed(q));
    assert Gained(Listed(q)) != [] ==> Gained(Listed(q))[0] in Gained(Listed(p));
    NamesOfSet(ss);
    NamesOfSet(frozen);
  }

  ghost predicate SameNames(p: Option<Result<seq<string>>>, q: Option<Result<seq<string>>>) {
    p == q ||
    (p.Some? && q.Some? && p.value.Ok? && q.value.Ok? && forall n :: n in p.value.value <==> n in q.value.value)
  }

  lemma {:induction false} ListedAlike(p: seq<Option<Result<seq<string>>>>, q: seq<Option<Result<seq<string>>>>)
    requires |p| == |q| && forall i :: 0 <= i < |p| ==> SameNames(p[i], q[i])
    ensures forall n :: n in Gained(Listed(p)) <==> n in Gained(Listed(q))
    ensures FirstError(Listed(p)) == FirstError(Listed(q))
  {
    if p != [] {
      var m := |p| - 1;
      assert SameNames(p[m], q[m]);
      ListedAlike(p[..m], q[..m]);
      ListedLast(p);
      ListedLast(q);
    }
  }

  lemma NothingListed()
    ensures Gained(Listed([])) == [] && FirstError(Listed([])).None?
  {}

  lemma ListedLast(p: seq<Option<Result<seq<string>>>>)
    requires p != []
    ensures var init, last := Listed(p[..|p| - 1]), p[|p| - 1];
            && Gained(Listed(p)) == Gained(init) + (if last.Some? && last.value.Ok? then last.value.value else [])
            && FirstError(Listed(p)) == if FirstError(init).Some? || last.None? || last.value.Ok? then FirstError(init)
                                        else Some(last.value.error)
  {
    var init, last := Listed(p[..|p| - 1]), p[|p| - 1];
    if last.Some? {
      assert Listed(p) == init + [last.value];
      assert (init + [last.value])[..|init|] == init;
    } else {
      assert Listed(p) == init;
    }
  }

  // ----- The code -----

  ghost function PeopleOf(ss: seq<Source>): set<Identity> {
    set i, id | 0 <= i < |ss| && ss[i].people.Ok? && id in ss[i].people.value :: id
  }

  lemma InPeople(ss: seq<Source>, i: nat, id: Identity)
    requires i < |ss| && ss[i].people.Ok? && id in ss[i].people.value
    ensures id in PeopleOf(ss)
  {}

  /** Source `i` is the first that knows this person's name, and hands out this very person. */
  ghost predicate Owns(ss: seq<Source>, i: nat, id: Identity) {
    && i < |ss| && ss[i].people.Ok? && id in ss[i].people.value
    && forall k :: 0 <= k < i && ss[k].people.Ok? ==> id.name !in Names(ss[k].people.value)
  }

  /** The people kept are labelled with their owner unless they came labelled; nobody else is touched. */
  ghost predicate Labelled(ss: seq<Source>, before: map<Identity, string>, out: seq<Identity>, owner: map<string, nat>)
    reads PeopleOf(ss)
  {
    && before.Keys == PeopleOf(ss)
    && (forall id :: id in out ==>
          && id in PeopleOf(ss) && id.name in owner && Owns(ss, owner[id.name], id)
          && id.origin == if before[id] == "" then ss[owner[id.name]].describe else before[id])
    && (forall id :: id in PeopleOf(ss) && id !in out ==> id.origin == before[id])
  }

  lemma NobodyYet(ss: seq<Source>, before: map<Identity, string>)
    requires before.Keys == PeopleOf(ss) && forall id :: id in PeopleOf(ss) ==> id.origin == before[id]
    ensures Labelled(ss, before, [], map[])
    ensures OwnersOnto([], Gained([])) == [] && FirstTrouble([]).None?
  {}

  lemma LabelsWereBlank(ss: seq<Source>, before: map<Identity, string>, out: seq<Identity>, owner: map<string, nat>)
    requires Labelled(ss, before, out, owner)
    ensures before.Keys == PeopleOf(ss)
    ensures forall id :: id in PeopleOf(ss) && before[id] != "" ==> id.origin == before[id]
  {}

  lemma LabelsOfAll(ss: seq<Source>, before: map<Identity, string>, out: seq<Identity>, owner: map<string, nat>)
    requires Labelled(ss, before, out, owner)
    ensures before.Keys == PeopleOf(ss)
    ensures forall id :: id in out ==> id in PeopleOf(ss)
    ensures forall id :: id in out ==>
              exists i: nat :: Owns(ss, i, id) && id.origin == if before[id] == "" then ss[i].describe else before[id]
    ensures forall id :: id in PeopleOf(ss) && id !in out ==> id.origin == before[id]
  {}

  lemma NobodyTaken(have: seq<Identity>)
    ensures OwnersOnto(have, []) == have && Names([]) == []
  {}

  lemma Troubles(r: Result<seq<Identity>>)
    ensures r.Ok? ==> Trouble(r) == if NoRepeats(Names(r.value)) then None else Some(Ambiguous)
  {}

  lemma PeopleStep(rs: seq<Result<seq<Identity>>>, i: nat)
    requires i < |rs| && FirstTrouble(rs[..i]).None?
    ensures Trouble(rs[i]).Some? ==> FirstTrouble(rs) == Trouble(rs[i])
    ensures rs[i].Err? ==> Trouble(rs[i]) == Some(rs[i].error)
    ensures Trouble(rs[i]).None? ==>
              FirstTrouble(rs[..i + 1]).None? && rs[i].Ok? && Gained(rs[..i + 1]) == Gained(rs[..i]) + rs[i].value
  {
    assert rs[..i + 1][..i] == rs[..i] && rs[..i + 1][i] == rs[i];
    assert rs[..i + 1] + rs[i + 1..] == rs;
    FirstTroubleConcat(rs[..i + 1], rs[i + 1..]);
  }

  lemma NobodyAsked()
    ensures FirstFailure<seq<string>>([]).None? && AllMissing<seq<string>>([]) && Gained<string>([]) == []
    ensures Dedup<string>([]) == []
  {}

  lemma MembersStep(rs: seq<Result<seq<string>>>, i: nat)
    requires i < |rs|
    ensures Gained(rs[..i + 1]) == if rs[i].Ok? then Gained(rs[..i]) + rs[i].value else Gained(rs[..i])
    ensures FirstFailure(rs[..i + 1]) ==
            if FirstFailure(rs[..i]).None? && rs[i].Err? && rs[i].error != NoSuchGroup then Some(rs[i].error)
            else FirstFailure(rs[..i])
    ensures AllMissing(rs[..i + 1]) <==> AllMissing(rs[..i]) && rs[i] == Err(NoSuchGroup)
  {
    hide Gained, FirstFailure, AllMissing;
    var init, one := rs[..i], [rs[i]];
    assert rs[..i + 1] == init + one;
    GainedConcat(init, one);
    GainedOne(rs[i]);
    assert Gained(init) + [] == Gained(init);
    FirstFailureConcat(init, one);
    FirstFailureOne(rs[i]);
    AllMissingSplit(init, one);
    MissingOne(rs[i]);
  }

  lemma NothingAsked()
    ensures FirstFailure<Attrs>([]).None? && AllMissing<Attrs>([]) && UnderAll([]) == []
  {}

  lemma AttributesStep(rs: seq<Result<Attrs>>, i: nat)
    requires i < |rs| && FirstFailure(rs[..i]).None?
    ensures rs[i].Err? && rs[i].error != NoSuchGroup ==> FirstFailure(rs) == Some(rs[i].error)
    ensures rs[i].Ok? || rs[i].error == NoSuchGroup ==> FirstFailure(rs[..i + 1]).None?
    ensures AllMissing(rs[..i + 1]) <==> AllMissing(rs[..i]) && rs[i] == Err(NoSuchGroup)
    ensures UnderAll(rs[..i + 1]) ==
            if rs[i].Ok? then UnderOf(UnderAll(rs[..i]), rs[i].value) else UnderAll(rs[..i])
  {
    hide UnderOf, FirstFailure, AllMissing, UnderAll, WellFormed;
    var init, one := rs[..i], [rs[i]];
    assert rs[..i + 1] == init + one && rs == (init + one) + rs[i + 1..];
    AllMissingSplit(init, one);
    FirstFailureConcat(init, one);
    FirstFailureConcat(init + one, rs[i + 1..]);
    FirstFailureOne(rs[i]);
    MissingOne(rs[i]);
    UnderSnocAll(init, rs[i]);
  }

  lemma MissingOne<T>(r: Result<T>)
    ensures AllMissing([r]) <==> r == Err(NoSuchGroup)
  {
    assert [r][0] == r;
  }

  lemma UnderSnocAll(rs: seq<Result<Attrs>>, r: Result<Attrs>)
    ensures UnderAll(rs + [r]) == if r.Ok? then UnderOf(UnderAll(rs), r.value) else UnderAll(rs)
  {
    hide UnderOf, WellFormed;
    assert (rs + [r])[..|rs|] == rs;
  }

  class Set {
    var sources: seq<Source>

    constructor (sources: seq<Source>)
      ensures this.sources == sources
    {
      this.sources := sources;
    }

    method Add(src: Source)
      modifies this
      ensures sources == old(sources) + [src]
    {
      sources := sources + [src];
    }

    method Members(group: string) returns (r: Result<seq<string>>)
      ensures r == MergeMembers(Map((s: Source) => s.members(group), sources))
    {
      hide Gained, FirstFailure, AllMissing, DedupOnto;
      ghost var rs := Map((s: Source) => s.members(group), sources);
      var members: seq<string> := [];
      var seen: Option<set<string>> := None;
      var missing := 0;
      var firstErr: Option<Fault> := None;
      NobodyAsked();
      assert rs[..0] == [];
      for i := 0 to |sources|
        invariant members == Dedup(Gained(rs[..i]))
        invariant seen.Some? ==> forall x :: x in seen.value <==> x in members
        invariant missing <= i && (missing == i <==> AllMissing(rs[..i]))
        invariant firstErr == FirstFailure(rs[..i])
      {
        MembersStep(rs, i);
        match sources[i].members(group) {
          case Err(e) =>
            assert rs[i] == Err(e);
            if e == NoSuchGroup {
              missing := missing + 1;
            } else if firstErr.None? {
              firstErr := Some(e);
            }
          case Ok(got) =>
            assert rs[i] == Ok(got);
            members, seen := Append(members, seen, got);
            DedupConcat([], Gained(rs[..i]), got);
        }
      }
      assert rs[..|sources|] == rs;
      DedupEmpty(Gained(rs));
      if |members| > 0 {
        return Ok(members);
      }
      if firstErr.Some? {
        return Err(firstErr.value);
      }
      if missing == |sources| {
        return Err(NoSuchGroup);
      }
      return Ok([]);
    }

    /** One source's members, behind those already there: by search while the list is short, and through a
        set from the sixty-fifth on. */
    static method Append(have: seq<string>, index: Option<set<string>>, got: seq<string>)
      returns (members: seq<string>, seen: Option<set<string>>)
      requires index.Some? ==> forall x :: x in index.value <==> x in have
      ensures members == DedupOnto(have, got)
      ensures seen.Some? ==> forall x :: x in seen.value <==> x in members
    {
      hide DedupOnto;
      members, seen := have, index;
      DedupNothing(have);
      for j := 0 to |got|
        invariant members == DedupOnto(have, got[..j])
        invariant seen.Some? ==> forall x :: x in seen.value <==> x in members
      {
        var m := got[j];
        assert got[..j + 1] == got[..j] + [m];
        DedupSnoc(have, got[..j], m);
        if seen.Some? {
          if m in seen.value {
            continue;
          }
          seen := Some(seen.value + {m});
        } else {
          if m in members {
            continue;
          }
          if |members| >= 64 {
            seen := Some((set x | x in members) + {m});
          }
        }
        members := members + [m];
      }
      assert got[..|got|] == got;
    }

    /** What one source says of a group's attributes, or of whether it has the group. */
    static method Ask(src: Source, group: string) returns (got: Result<Attrs>)
      ensures got == src.AskAttributes(group)
    {
      match src.attributes {
        case Some(ask) =>
          got := ask(group);
        case None =>
          var m := src.members(group);
          got := if m.Ok? then Ok([]) else Err(m.error);
      }
    }

    /** The attributes so far, with what one more source gives under them. */
    static method TakeUnder(out: Attributes, more: Attrs, ghost l: Attrs) returns (merged: Attributes)
      requires Is(out, l)
      ensures Is(merged, UnderOf(l, more))
    {
      hide UnderOf, WellFormed, Keys, View;
      var asked := Holding(more);
      merged := Under(out, asked);
    }

    method GroupAttributes(group: string) returns (r: Result<Attrs>)
      ensures r == MergeAttributes(Map((s: Source) => s.AskAttributes(group), sources))
    {
      hide UnderOf, UnderAll, FirstFailure, AllMissing, WellFormed, Keys, View;
      ghost var rs := Map((s: Source) => s.AskAttributes(group), sources);
      var out := new Attributes(0);
      assert Is(out, []);
      hide Is;
      var found := false;
      NothingAsked();
      assert rs[..0] == [];
      for i := 0 to |sources|
        invariant FirstFailure(rs[..i]).None?
        invariant found <==> !AllMissing(rs[..i])
        invariant Is(out, UnderAll(rs[..i]))
      {
        AttributesStep(rs, i);
        var got := Ask(sources[i], group);
        if got.Err? {
          if got.error == NoSuchGroup {
            continue;
          }
          return Err(got.error);
        }
        found := true;
        out := TakeUnder(out, got.value, UnderAll(rs[..i]));
      }
      assert rs[..|sources|] == rs;
      WhatIs(out, UnderAll(rs));
      if !found {
        return Err(NoSuchGroup);
      }
      var all := out.All();
      return Ok(all);
    }

    method GroupObjectClasses(group: string) returns (r: Result<seq<string>>)
      ensures r == MergeClasses(Map((s: Source) => s.AskClasses(group), sources))
    {
      ghost var rs := Map((s: Source) => s.AskClasses(group), sources);
      var found := false;
      for i := 0 to |sources|
        invariant FirstDecisive(rs[..i]).None?
        invariant found <==> !AllMissing(rs[..i])
      {
        assert rs[..i + 1][..i] == rs[..i] && rs[..i + 1] == rs[..i] + [rs[i]];
        assert rs[..i + 1] + rs[i + 1..] == rs;
        AllMissingSplit(rs[..i], [rs[i]]);
        FirstDecisiveConcat(rs[..i + 1], rs[i + 1..]);
        var src := sources[i];
        var got: Result<seq<string>>;
        match src.classes {
          case Some(ask) =>
            got := ask(group);
          case None =>
            var m := src.members(group);
            got := if m.Ok? then Ok([]) else Err(m.error);
        }
        assert got == rs[i] && [rs[i]][0] == rs[i];
        if got.Err? {
          if got.error == NoSuchGroup {
            continue;
          }
          return got;
        }
        found := true;
        if |got.value| > 0 {
          return got;
        }
      }
      assert rs[..|sources|] == rs;
      if !found {
        return Err(NoSuchGroup);
      }
      return Ok([]);
    }

    method GroupNames() returns (r: Result<seq<string>>)
      ensures r == MergeNames(Map((s: Source) => s.names, sources))
    {
      hide Gained, FirstError, Listed, SortedSet;
      ghost var rs := Map((s: Source) => s.names, sources);
      NothingListed();
      assert rs[..0] == [];
      var names: seq<string> := [];
      var firstErr: Option<Fault> := None;
      for i := 0 to |sources|
        invariant names == Gained(Listed(rs[..i]))
        invariant firstErr == FirstError(Listed(rs[..i]))
      {
        assert rs[..i + 1][..i] == rs[..i] && rs[..i + 1][i] == rs[i];
        ListedLast(rs[..i + 1]);
        assert Gained(Listed(rs[..i])) + [] == Gained(Listed(rs[..i]));
        if sources[i].names.None? {
          continue;
        }
        match sources[i].names.value {
          case Err(e) =>
            if firstErr.None? {
              firstErr := Some(e);
            }
          case Ok(got) =>
            names := names + got;
        }
      }
      assert rs[..|sources|] == rs;
      if |names| == 0 && firstErr.Some? {
        return Err(firstErr.value);
      }
      return Ok(SortedSet(StringLe, names));
    }

    /** Every person the first source to know their name hands out; the set writes down which source that was,
        on those whose source did not say, and touches nobody else. */
    method Identities() returns (r: Result<seq<Identity>>)
      modifies PeopleOf(sources)
      ensures r == MergePeople(Map((s: Source) => s.people, sources))
      ensures r.Ok? ==> forall id :: id in r.value ==>
                exists i: nat :: Owns(sources, i, id) &&
                                 id.origin == if old(id.origin) == "" then sources[i].describe else old(id.origin)
      ensures r.Ok? ==> forall id :: id in PeopleOf(sources) && id !in r.value ==> id.origin == old(id.origin)
      ensures r.Err? ==> forall id :: id in PeopleOf(sources) && old(id.origin) != "" ==> id.origin == old(id.origin)
    {
      hide Gained, FirstTrouble, OwnersOnto, Labelled, Trouble;
      ghost var rs := Map((s: Source) => s.people, sources);
      ghost var before := map id | id in PeopleOf(sources) :: id.origin;
      ghost var owner: map<string, nat> := map[];
      var out: seq<Identity> := [];
      var seen: set<string> := {};
      NobodyYet(sources, before);
      for i := 0 to |sources|
        invariant FirstTrouble(rs[..i]).None? && out == OwnersOnto([], Gained(rs[..i]))
        invariant forall n :: n in seen <==> n in Names(out)
        invariant KnownBefore(i, seen)
        invariant Labelled(sources, before, out, owner)
      {
        PeopleStep(rs, i);
        if sources[i].people.Err? {
          LabelsWereBlank(sources, before, out, owner);
          return Err(sources[i].people.error);
        }
        var fault;
        fault, out, seen, owner := PeopleFrom(i, out, seen, before, owner);
        LabelsWereBlank(sources, before, out, owner);
        if fault.Some? {
          return Err(fault.value);
        }
        OwnersConcat([], Gained(rs[..i]), sources[i].people.value);
      }
      assert rs[..|sources|] == rs;
      LabelsOfAll(sources, before, out, owner);
      return Ok(out);
    }

    /** What one source adds: an answer with a name twice in it is refused, whoever else knows the name. */
    method PeopleFrom(i: nat, have: seq<Identity>, known: set<string>, ghost before: map<Identity, string>,
          ghost had: map<string, nat>)
      returns (fault: Option<Fault>, out: seq<Identity>, seen: set<string>, ghost owner: map<string, nat>)
      requires i < |sources| && sources[i].people.Ok? && KnownBefore(i, known)
      requires forall n :: n in known <==> n in Names(have)
      requires Labelled(sources, before, have, had)
      modifies PeopleOf(sources)
      ensures fault == Trouble(sources[i].people)
      ensures Labelled(sources, before, out, owner)
      ensures forall n :: n in seen <==> n in Names(out)
      ensures fault.None? ==> out == OwnersOnto(have, sources[i].people.value) && KnownBefore(i + 1, seen)
    {
      hide Labelled, Owns, KnownBefore, OwnersOnto, PeopleOf, Trouble;
      out, seen, owner := have, known, had;
      var ids := sources[i].people.value;
      var here: set<string> := {};
      NobodyTaken(have);
      for j := 0 to |ids|
        invariant NoRepeats(Names(ids[..j])) && forall n :: n in here <==> n in Names(ids[..j])
        invariant out == OwnersOnto(have, ids[..j])
        invariant forall n :: n in seen <==> n in Names(out)
        invariant known <= seen && here <= seen
        invariant Labelled(sources, before, out, owner)
      {
        var id := ids[j];
        NamesSnoc(ids[..j], id);
        assert ids[..j + 1] == ids[..j] + [id];
        if id.name in here {
          Repeated(ids, j);
          Troubles(sources[i].people);
          return Some(Ambiguous), out, seen, owner;
        }
        here := here + {id.name};
        OwnersSnoc(have, ids[..j], id);
        if id.name in seen {
          continue;
        }
        seen := seen + {id.name};
        NamesSnoc(out, id);
        InPeople(sources, i, id);
        NewOwner(i, id, known);
        Label(i, id, out, before, owner);
        owner := owner[id.name := i];
        out := out + [id];
      }
      assert ids[..|ids|] == ids;
      Troubles(sources[i].people);
      NowKnown(i, known, seen);
      return None, out, seen, owner;
    }

    lemma NowKnown(i: nat, known: set<string>, seen: set<string>)
      requires i < |sources| && sources[i].people.Ok? && KnownBefore(i, known) && known <= seen
      requires forall n :: n in Names(sources[i].people.value) ==> n in seen
      ensures KnownBefore(i + 1, seen)
    {}

    method Label(i: nat, id: Identity, ghost out: seq<Identity>, ghost before: map<Identity, string>,
          ghost owner: map<string, nat>)
      requires i < |sources| && Owns(sources, i, id) && id.name !in Names(out)
      requires Labelled(sources, before, out, owner)
      modifies id
      ensures Labelled(sources, before, out + [id], owner[id.name := i])
    {
      forall k | k in out ensures k.name in Names(out) { NameIn(out, k); }
      if id.origin == "" {
        id.origin := sources[i].describe;
      }
    }

    lemma NewOwner(i: nat, id: Identity, known: set<string>)
      requires i < |sources| && sources[i].people.Ok? && id in sources[i].people.value
      requires KnownBefore(i, known) && id.name !in known
      ensures Owns(sources, i, id)
    {}

    /** Every name the sources before `i` know has been seen. */
    ghost predicate KnownBefore(i: nat, seen: set<string>)
      reads this
    {
      i <= |sources| &&
      forall k, n :: 0 <= k < i && sources[k].people.Ok? && n in Names(sources[k].people.value) ==> n in seen
    }

    /** The set with every bulk reader read now, once; the first that cannot be read is the error. */
    method Frozen() returns (r: Result<Set>)
      ensures r.Ok? ==> fresh(r.value) && |r.value.sources| == |sources| &&
                        forall i :: 0 <= i < |sources| ==> Froze(sources[i], r.value.sources[i])
      ensures r.Err? ==> exists i :: 0 <= i < |sources| && sources[i].bulk == Some(Err(r.error)) &&
                                     forall k :: 0 <= k < i && sources[k].bulk.Some? ==> sources[k].bulk.value.Ok?
    {
      var out: seq<Source> := [];
      for i := 0 to |sources|
        invariant |out| == i && forall k :: 0 <= k < i ==> Froze(sources[k], out[k])
      {
        var src := sources[i];
        if src.bulk.None? {
          out := out + [src];
          continue;
        }
        if src.bulk.value.Err? {
          assert forall k :: 0 <= k < i ==> Froze(sources[k], out[k]);
          return Err(src.bulk.value.error);
        }
        var frozen := Freeze(src, src.bulk.value.value);
        out := out + [frozen];
      }
      var s := new Set(out);
      return Ok(s);
    }

    static method Freeze(src: Source, groups: map<string, GroupData>) returns (out: Source)
      ensures IsFrozen(src, groups, out)
    {
      var names := SortedKeys(groups);
      out := Source(
        src.describe, src.people,
        g => if g in groups then Ok(groups[g].members) else Err(NoSuchGroup),
        Some(g => if g in groups then Ok(groups[g].attributes) else Err(NoSuchGroup)),
        Some(g => if g in groups then Ok(groups[g].classes) else Err(NoSuchGroup)),
        Some(Ok(names)), None);
    }
  }

  /** The names of a map, sorted, whatever order the map yields them in. */
  method SortedKeys<V>(m: map<string, V>) returns (names: seq<string>)
    ensures Sorted(StringLe, names) && NoRepeats(names)
    ensures forall n :: n in names <==> n in m
  {
    var left := m.Keys;
    var found: seq<string> := [];
    while left != {}
      invariant NoRepeats(found) && left <= m.Keys
      invariant forall n :: n in found <==> n in m && n !in left
      decreases left
    {
      var n :| n in left;
      left := left - {n};
      found := found + [n];
    }
    StringTotalOrder();
    SortSorts(StringLe, found);
    SameMembers(Sort(StringLe, found), found);
    SortNoRepeats(found);
    return Sort(StringLe, found);
  }

  lemma NameIn(ids: seq<Identity>, id: Identity)
    requires id in ids
    ensures id.name in Names(ids)
  {
    var i :| 0 <= i < |ids| && ids[i] == id;
    assert Names(ids)[i] == id.name;
  }

  lemma Repeated(ids: seq<Identity>, j: nat)
    requires j < |ids| && ids[j].name in Names(ids[..j])
    ensures !NoRepeats(Names(ids))
  {
    var k :| 0 <= k < j && Names(ids[..j])[k] == ids[j].name;
    assert Names(ids)[k] == Names(ids)[j];
  }

  lemma SortNoRepeats(s: seq<string>)
    requires NoRepeats(s)
    ensures NoRepeats(Sort(StringLe, s))
  {
    StringTotalOrder();
    var c := SortedSet(StringLe, s);
    SortedSetMeaning(StringLe, s);
    SameMembers(Sort(StringLe, s), s);
    SameDistinct(c, s);
    SortSorts(StringLe, s);
    SortedUnique(StringLe, c, Sort(StringLe, s));
  }

  lemma SameDistinct<T(!new)>(a: seq<T>, b: seq<T>)
    requires NoRepeats(a) && NoRepeats(b) && forall x :: x in a <==> x in b
    ensures multiset(a) == multiset(b)
  {
    forall x ensures multiset(a)[x] == multiset(b)[x] {
      CountOfDistinct(a, x);
      CountOfDistinct(b, x);
    }
  }

  lemma {:induction false} CountOfDistinct<T>(s: seq<T>, x: T)
    requires forall i, j :: 0 <= i < j < |s| ==> s[i] != s[j]
    ensures multiset(s)[x] == if x in s then 1 else 0
  {
    if s != [] {
      HeadAndTail(s);
      CountOfDistinct(s[1..], x);
    }
  }

  // ----- Expanding a list of people and groups -----

  predicate IsGroup(name: string) {
    "@" <= name
  }

  /** One entry of the list: a person is themselves; a group must have somebody in it. */
  function ExpandOne(name: string, src: Source): Result<seq<string>> {
    if !IsGroup(name) then Ok([name])
    else match src.members(name[1..])
         case Err(e) => Err(e)
         case Ok(members) => if members == [] then Err(EmptyGroup) else Ok(members)
  }

  /** Everybody named, once, in order; or the first entry's error. */
  function Expansion(names: seq<string>, src: Source): Result<seq<string>> {
    var parts := Map((name: string) => ExpandOne(name, src), names);
    match FirstError(parts)
    case Some(e) => Err(e)
    case None => Ok(Dedup(Gained(parts)))
  }

  method AddNames(have: seq<string>, more: seq<string>) returns (out: seq<string>)
    ensures out == DedupOnto(have, more)
  {
    out := have;
    for j := 0 to |more|
      invariant out == DedupOnto(have, more[..j])
    {
      assert more[..j + 1] == more[..j] + [more[j]];
      DedupSnoc(have, more[..j], more[j]);
      if more[j] !in out {
        out := out + [more[j]];
      }
    }
    assert more[..|more|] == more;
  }

  lemma NoParts(parts: seq<Result<seq<string>>>)
    ensures FirstError(parts[..0]).None? && Gained(parts[..0]) == []
    ensures parts[..|parts|] == parts
  {}

  lemma PartsStep(parts: seq<Result<seq<string>>>, i: nat)
    requires i < |parts| && FirstError(parts[..i]).None?
    ensures parts[i].Err? ==> FirstError(parts) == Some(parts[i].error)
    ensures parts[i].Ok? ==>
              FirstError(parts[..i + 1]).None? && Gained(parts[..i + 1]) == Gained(parts[..i]) + parts[i].value
  {
    hide Gained, FirstError;
    var one := [parts[i]];
    assert parts == parts[..i] + (one + parts[i + 1..]) && parts[..i + 1] == parts[..i] + one;
    FirstErrorOne(parts[i]);
    FirstErrorConcat(parts[..i], one);
    FirstErrorConcat(parts[..i], one + parts[i + 1..]);
    FirstErrorConcat(one, parts[i + 1..]);
    GainedOne(parts[i]);
    GainedConcat(parts[..i], one);
  }

  method Expand(names: seq<string>, src: Source) returns (r: Result<seq<string>>)
    ensures r == Expansion(names, src)
  {
    hide Gained, FirstError;
    ghost var parts := Map((name: string) => ExpandOne(name, src), names);
    NoParts(parts);
    var out: seq<string> := [];
    for i := 0 to |names|
      invariant FirstError(parts[..i]).None? && out == Dedup(Gained(parts[..i]))
    {
      PartsStep(parts, i);
      var members: seq<string>;
      if !IsGroup(names[i]) {
        members := [names[i]];
      } else {
        var got := src.members(names[i][1..]);
        if got.Err? {
          return got;
        }
        if |got.value| == 0 {
          return Err(EmptyGroup);
        }
        members := got.value;
      }
      out := AddNames(out, members);
      DedupConcat([], Gained(parts[..i]), members);
    }
    assert parts[..|names|] == parts;
    return Ok(out);
  }
}
