/** What the answers of a Set mean, said without saying how they are found. */
module SetMeaning {
  import opened Basics
  import opened Ordering
  import opened Faults
  import opened AttributeLists
  import opened Sources
  import opened Nesting
  import opened DirectorySet

  // ----- Who decides -----

  ghost predicate FirstToFail<T>(rs: seq<Result<T>>, i: int) {
    && 0 <= i < |rs| && rs[i].Err? && rs[i].error != NoSuchGroup
    && forall k :: 0 <= k < i ==> rs[k].Ok? || rs[k].error == NoSuchGroup
  }

  lemma {:induction false} FailureFound<T>(rs: seq<Result<T>>)
    ensures FirstFailure(rs).None? ==> forall i :: 0 <= i < |rs| ==> rs[i].Ok? || rs[i].error == NoSuchGroup
    ensures FirstFailure(rs).Some? ==> exists i :: FirstToFail(rs, i) && rs[i].error == FirstFailure(rs).value
  {
    if rs != [] {
      var init, m := rs[..|rs| - 1], |rs| - 1;
      FailureFound(init);
      if FirstFailure(init).Some? {
        var i :| FirstToFail(init, i) && init[i].error == FirstFailure(init).value;
        assert FirstToFail(rs, i);
      } else if FirstFailure(rs).Some? {
        assert FirstToFail(rs, m);
      }
    }
  }

  lemma {:induction false} GainedFrom<T(!new)>(rs: seq<Result<seq<T>>>, x: T)
    ensures x in Gained(rs) <==> exists i :: 0 <= i < |rs| && rs[i].Ok? && x in rs[i].value
  {
    if rs != [] {
      var init := rs[..|rs| - 1];
      GainedFrom(init, x);
      if x in Gained(rs) && x in Gained(init) {
        var i :| 0 <= i < |init| && init[i].Ok? && x in init[i].value;
        assert rs[i].Ok? && x in rs[i].value;
      }
      if i :| 0 <= i < |rs| && rs[i].Ok? && x in rs[i].value {
        assert i < |init| ==> init[i].Ok? && x in init[i].value;
      }
    }
  }

  /** No source names anybody. */
  ghost predicate Nobody(rs: seq<Result<seq<string>>>) {
    forall k :: 0 <= k < |rs| && rs[k].Ok? ==> rs[k].value == []
  }

  lemma {:induction false} NobodyGained(rs: seq<Result<seq<string>>>)
    ensures Nobody(rs) <==> Gained(rs) == []
  {
    if rs != [] {
      var init, m := rs[..|rs| - 1], |rs| - 1;
      NobodyGained(init);
      assert Nobody(rs) ==> Nobody(init) && (rs[m].Ok? ==> rs[m].value == []);
    }
  }

  /** Members: somebody is one exactly when some source that answered says so. The group is missing exactly when every
      source lacks it. A failure is the answer, and the first one, exactly when nobody is named and some source fails;
      and nobody is the answer, without an error, exactly when none fails and some source has the group. */
  lemma MembersAnswer(rs: seq<Result<seq<string>>>, who: string, i: int)
    ensures var r := MergeMembers(rs);
            && (r.Ok? && who in r.value <==> exists k :: 0 <= k < |rs| && rs[k].Ok? && who in rs[k].value)
            && (r == Err(NoSuchGroup) <==> AllMissing(rs))
            && (Nobody(rs) && FirstToFail(rs, i) ==> r == Err(rs[i].error))
            && (r.Err? && r.error != NoSuchGroup <==> Nobody(rs) && exists k :: FirstToFail(rs, k))
            && (r == Ok([]) <==> Nobody(rs) && !AllMissing(rs) && !exists k :: FirstToFail(rs, k))
  {
    hide Gained;
    GainedFrom(rs, who);
    NothingGained(rs);
    FailureFound(rs);
    NobodyGained(rs);
    if AllMissing(rs) {
      MissingGainsNothing(rs);
    }
    assert Gained(rs) != [] ==> Gained(rs)[0] in Dedup(Gained(rs));
  }

  /** Attributes: the first source to fail is the error, whoever else answered; else the group is missing exactly
      when every source lacks it. */
  lemma AttributesAnswer(rs: seq<Result<Attrs>>, i: int)
    ensures FirstToFail(rs, i) ==> MergeAttributes(rs) == Err(rs[i].error)
    ensures (MergeAttributes(rs) == Err(NoSuchGroup) <==> AllMissing(rs))
    ensures MergeAttributes(rs).Ok? <==>
            !AllMissing(rs) && forall k :: 0 <= k < |rs| ==> rs[k].Ok? || rs[k].error == NoSuchGroup
  {
    FailureFound(rs);
    NothingGained(rs);
  }

  ghost predicate FirstToDecide(rs: seq<Result<seq<string>>>, i: int) {
    && 0 <= i < |rs| && Decisive(rs[i])
    && forall k :: 0 <= k < i ==> !Decisive(rs[k])
  }

  lemma {:induction false} DecisionFound(rs: seq<Result<seq<string>>>)
    ensures FirstDecisive(rs).None? ==> forall i :: 0 <= i < |rs| ==> !Decisive(rs[i])
    ensures FirstDecisive(rs).Some? ==> exists i :: FirstToDecide(rs, i) && rs[i] == FirstDecisive(rs).value
  {
    if rs != [] {
      var init, m := rs[..|rs| - 1], |rs| - 1;
      DecisionFound(init);
      if FirstDecisive(init).Some? {
        var i :| FirstToDecide(init, i) && init[i] == FirstDecisive(init).value;
        assert FirstToDecide(rs, i);
      } else if FirstDecisive(rs).Some? {
        assert FirstToDecide(rs, m);
      }
    }
  }

  /** Classes: the first source that declares any, or fails, decides whole; else nothing is declared, or the group
      is missing everywhere. */
  lemma ClassesAnswer(rs: seq<Result<seq<string>>>, i: int)
    ensures FirstToDecide(rs, i) ==> MergeClasses(rs) == rs[i]
    ensures MergeClasses(rs) == Err(NoSuchGroup) <==> AllMissing(rs)
    ensures MergeClasses(rs) == Ok([]) <==> !AllMissing(rs) && forall k :: 0 <= k < |rs| ==> !Decisive(rs[k])
  {
    DecisionFound(rs);
    DecisiveFound(rs);
  }

  // ----- Which groups are listed -----

  ghost predicate ListsGroup(r: Option<Result<seq<string>>>, name: string) {
    r.Some? && r.value.Ok? && name in r.value.value
  }

  lemma {:induction false} GainedListed(rs: seq<Option<Result<seq<string>>>>, name: string)
    ensures name in Gained(Listed(rs)) <==> exists i :: 0 <= i < |rs| && ListsGroup(rs[i], name)
    ensures FirstError(Listed(rs)).Some? <==> exists i :: 0 <= i < |rs| && rs[i].Some? && rs[i].value.Err?
  {
    if rs != [] {
      var init, last := rs[..|rs| - 1], rs[|rs| - 1];
      GainedListed(init, name);
      var one := if last.Some? then [last.value] else [];
      assert Listed(rs) == Listed(init) + one;
      GainedConcat(Listed(init), one);
      FirstErrorConcat(Listed(init), one);
      if last.Some? {
        GainedOne(last.value);
        FirstErrorOne(last.value);
      }
      ListedWhere(rs, name);
    }
  }

  lemma ListedWhere(rs: seq<Option<Result<seq<string>>>>, name: string)
    requires rs != []
    ensures var init, last := rs[..|rs| - 1], rs[|rs| - 1];
            && ((exists i :: 0 <= i < |rs| && ListsGroup(rs[i], name)) <==>
                (exists i :: 0 <= i < |init| && ListsGroup(init[i], name)) || ListsGroup(last, name))
            && ((exists i :: 0 <= i < |rs| && rs[i].Some? && rs[i].value.Err?) <==>
                (exists i :: 0 <= i < |init| && init[i].Some? && init[i].value.Err?) || (last.Some? && last.value.Err?))
  {
    var init := rs[..|rs| - 1];
    if i :| 0 <= i < |rs| && ListsGroup(rs[i], name) {
      assert i < |init| ==> ListsGroup(init[i], name);
    }
    if i :| 0 <= i < |rs| && rs[i].Some? && rs[i].value.Err? {
      assert i < |init| ==> init[i].Some? && init[i].value.Err?;
    }
    if i :| 0 <= i < |init| && ListsGroup(init[i], name) {
      assert ListsGroup(rs[i], name);
    }
    if i :| 0 <= i < |init| && init[i].Some? && init[i].value.Err? {
      assert rs[i].Some? && rs[i].value.Err?;
    }
  }

  /** A group is listed exactly when some source that can list names it; the list is sorted and holds it once; and
      there is an error exactly when some source failed and no other named anything. */
  lemma NamesAnswer(rs: seq<Option<Result<seq<string>>>>, name: string)
    ensures var r := MergeNames(rs);
            && (r.Ok? ==> Sorted(StringLe, r.value) && NoRepeats(r.value))
            && (r.Ok? && name in r.value <==> exists i :: 0 <= i < |rs| && ListsGroup(rs[i], name))
            && (r.Err? <==> (exists i :: 0 <= i < |rs| && rs[i].Some? && rs[i].value.Err?) && Gained(Listed(rs)) == [])
  {
    hide SortedSet;
    GainedListed(rs, name);
    StringTotalOrder();
    SortedSetMeaning(StringLe, Gained(Listed(rs)));
  }

  // ----- Who is handed out -----

  ghost predicate FirstKnows(rs: seq<Result<seq<Identity>>>, i: int, id: Identity) {
    && 0 <= i < |rs| && rs[i].Ok? && id in rs[i].value
    && forall k :: 0 <= k < i && rs[k].Ok? ==> id.name !in Names(rs[k].value)
  }

  lemma {:induction false} OwnersMember(acc: seq<Identity>, ids: seq<Identity>, id: Identity)
    requires NoRepeats(Names(ids))
    ensures id in OwnersOnto(acc, ids) <==> id in acc || (id in ids && id.name !in Names(acc))
  {
    if ids != [] {
      var init, last := ids[..|ids| - 1], ids[|ids| - 1];
      NamesSnoc(init, last);
      assert ids == init + [last] && Names(ids)[|init|] == last.name;
      assert last.name !in Names(init) && NoRepeats(Names(init)) by {
        assert forall k :: 0 <= k < |init| ==> Names(init)[k] == Names(ids)[k];
      }
      OwnersMember(acc, init, id);
      OwnersNames(acc, init);
    }
  }

  lemma {:induction false} KnownNames(rs: seq<Result<seq<Identity>>>, name: string)
    ensures name in Names(Gained(rs)) <==> exists i :: 0 <= i < |rs| && rs[i].Ok? && name in Names(rs[i].value)
  {
    if rs != [] {
      var init, last := rs[..|rs| - 1], rs[|rs| - 1];
      KnownNames(init, name);
      MapConcat((p: Identity) => p.name, Gained(init), if last.Ok? then last.value else []);
      if i :| 0 <= i < |init| && init[i].Ok? && name in Names(init[i].value) {
        assert rs[i].Ok? && name in Names(rs[i].value);
      }
      if i :| 0 <= i < |rs| && rs[i].Ok? && name in Names(rs[i].value) {
        assert i < |init| ==> init[i].Ok? && name in Names(init[i].value);
      }
    }
  }

  lemma FirstKnowsSnoc(rs: seq<Result<seq<Identity>>>, id: Identity)
    requires rs != [] && rs[|rs| - 1].Ok?
    ensures var init, last := rs[..|rs| - 1], rs[|rs| - 1].value;
            (exists i :: FirstKnows(rs, i, id)) <==>
            (exists i :: FirstKnows(init, i, id)) || (id in last && id.name !in Names(Gained(init)))
  {
    var init, m := rs[..|rs| - 1], |rs| - 1;
    KnownNames(init, id.name);
    if i :| FirstKnows(rs, i, id) {
      if i < m {
        assert FirstKnows(init, i, id);
      }
    }
    if i :| FirstKnows(init, i, id) {
      assert FirstKnows(rs, i, id);
    }
    if id in rs[m].value && id.name !in Names(Gained(init)) {
      assert FirstKnows(rs, m, id);
    }
  }

  lemma {:induction false} OwnersFound(rs: seq<Result<seq<Identity>>>, id: Identity)
    requires FirstTrouble(rs).None?
    ensures id in OwnersOnto([], Gained(rs)) <==> exists i :: FirstKnows(rs, i, id)
  {
    if rs != [] {
      var init, last := rs[..|rs| - 1], rs[|rs| - 1];
      OwnersFound(init, id);
      var acc := OwnersOnto([], Gained(init));
      OwnersConcat([], Gained(init), last.value);
      OwnersMember(acc, last.value, id);
      OwnersNames([], Gained(init));
      FirstKnowsSnoc(rs, id);
    }
  }

  /** Somebody is handed out exactly when the first source to know their name hands them out; nobody twice; and
      there is an error exactly when some source fails or holds one name twice. */
  lemma PeopleAnswer(rs: seq<Result<seq<Identity>>>, id: Identity)
    ensures var r := MergePeople(rs);
            && (r.Ok? <==> forall i :: 0 <= i < |rs| ==> rs[i].Ok? && NoRepeats(Names(rs[i].value)))
            && (r.Ok? ==> NoRepeats(Names(r.value)) && (id in r.value <==> exists i :: FirstKnows(rs, i, id)))
  {
    TroubleFound(rs);
    if FirstTrouble(rs).None? {
      OwnersFound(rs, id);
      OwnersNames([], Gained(rs));
      DedupNoRepeats(Names([]), Names(Gained(rs)));
    }
  }

  lemma {:induction false} TroubleFound(rs: seq<Result<seq<Identity>>>)
    ensures FirstTrouble(rs).None? <==> forall i :: 0 <= i < |rs| ==> rs[i].Ok? && NoRepeats(Names(rs[i].value))
  {
    if rs != [] {
      TroubleFound(rs[..|rs| - 1]);
    }
  }

  // ----- Who a list of names comes to -----

  /** A group is written with an at sign in front. */
  ghost predicate WrittenAsGroup(name: string) {
    name != "" && name[0] == '@'
  }

  /** Somebody is named, or is in a group named. */
  ghost predicate Covers(name: string, src: Source, who: string) {
    if WrittenAsGroup(name) then src.members(name[1..]).Ok? && who in src.members(name[1..]).value else who == name
  }

  /** An entry that cannot be expanded: a group that is not answered for, or that nobody is in. */
  ghost predicate CannotExpand(name: string, src: Source) {
    WrittenAsGroup(name) && (src.members(name[1..]).Err? || src.members(name[1..]).value == [])
  }

  ghost predicate FirstUnexpanded(names: seq<string>, src: Source, i: int) {
    0 <= i < |names| && CannotExpand(names[i], src) && forall k :: 0 <= k < i ==> !CannotExpand(names[k], src)
  }

  lemma ExpandOneIs(name: string, src: Source)
    ensures ExpandOne(name, src).Err? <==> CannotExpand(name, src)
    ensures ExpandOne(name, src).Err? ==>
              ExpandOne(name, src).error ==
              if src.members(name[1..]).Err? then src.members(name[1..]).error else EmptyGroup
    ensures ExpandOne(name, src).Ok? ==>
              ExpandOne(name, src).value == if WrittenAsGroup(name) then src.members(name[1..]).value else [name]
  {}

  lemma {:induction false} ErrorFound<T>(rs: seq<Result<T>>)
    ensures FirstError(rs).None? <==> forall i :: 0 <= i < |rs| ==> rs[i].Ok?
    ensures FirstError(rs).Some? ==>
              exists i :: 0 <= i < |rs| && rs[i] == Err(FirstError(rs).value) && forall k :: 0 <= k < i ==> rs[k].Ok?
  {
    if rs != [] {
      var init, m := rs[..|rs| - 1], |rs| - 1;
      ErrorFound(init);
      if FirstError(init).Some? {
        var i :| 0 <= i < |init| && init[i] == Err(FirstError(init).value) && forall k :: 0 <= k < i ==> init[k].Ok?;
        assert rs[i] == init[i] && forall k :: 0 <= k < i ==> rs[k] == init[k];
      } else {
        assert forall k :: 0 <= k < m ==> rs[k] == init[k];
      }
    }
  }

  /** A list expands exactly when every group in it is answered for and has somebody; somebody is in the expansion
      exactly when they are named or in a group named; and otherwise the first group that cannot be expanded decides,
      being empty if it was answered for. */
  lemma ExpansionMeaning(names: seq<string>, src: Source, who: string, i: int)
    ensures var r := Expansion(names, src);
            && (r.Ok? <==> forall k :: 0 <= k < |names| ==> !CannotExpand(names[k], src))
            && (r.Ok? ==> NoRepeats(r.value))
            && (r.Ok? ==> (who in r.value <==> exists k :: 0 <= k < |names| && Covers(names[k], src, who)))
            && (FirstUnexpanded(names, src, i) ==>
                  r == Err(match src.members(names[i][1..]) case Err(e) => e case Ok(_) => EmptyGroup))
  {
    hide CannotExpand, Covers, ExpandOne;
    var parts := Map((name: string) => ExpandOne(name, src), names);
    forall k | 0 <= k < |names| ensures parts[k] == ExpandOne(names[k], src) {}
    forall name ensures ExpandOne(name, src).Err? <==> CannotExpand(name, src) {
      ExpandOneIs(name, src);
    }
    ErrorFound(parts);
    GainedFrom(parts, who);
    DedupNoRepeats([], Gained(parts));
    if FirstError(parts).None? {
      GainedNames(names, src, who);
    }
    if FirstUnexpanded(names, src, i) {
      var k :| 0 <= k < |parts| && parts[k] == Err(FirstError(parts).value) && forall j :: 0 <= j < k ==> parts[j].Ok?;
      assert k == i;
      UnexpandedError(names[i], src);
    }
  }

  lemma UnexpandedError(name: string, src: Source)
    requires CannotExpand(name, src)
    ensures ExpandOne(name, src) == Err(match src.members(name[1..]) case Err(e) => e case Ok(_) => EmptyGroup)
  {}

  lemma GainedNames(names: seq<string>, src: Source, who: string)
    requires forall k :: 0 <= k < |names| ==> ExpandOne(names[k], src).Ok?
    ensures (exists k :: 0 <= k < |names| && who in ExpandOne(names[k], src).value) <==>
            exists k :: 0 <= k < |names| && Covers(names[k], src, who)
  {
    forall k | 0 <= k < |names| ensures who in ExpandOne(names[k], src).value <==> Covers(names[k], src, who) {
      ExpandOneIs(names[k], src);
    }
  }

  // ----- Which error it is -----

  /** The list of groups fails with the error of the first lister that has one. */
  lemma NamesFault(rs: seq<Option<Result<seq<string>>>>, i: int)
    requires 0 <= i < |rs| && rs[i].Some? && rs[i].value.Err? && Gained(Listed(rs)) == []
    requires forall k :: 0 <= k < i ==> rs[k].None? || rs[k].value.Ok?
    ensures MergeNames(rs) == Err(rs[i].value.error)
  {
    ListedFault(rs, i);
  }

  lemma {:induction false} ListedFault(rs: seq<Option<Result<seq<string>>>>, i: int)
    requires 0 <= i < |rs| && rs[i].Some? && rs[i].value.Err?
    requires forall k :: 0 <= k < i ==> rs[k].None? || rs[k].value.Ok?
    ensures FirstError(Listed(rs)) == Some(rs[i].value.error)
  {
    hide Listed, FirstError, Gained;
    var init := rs[..|rs| - 1];
    ListedLast(rs);
    if i < |init| {
      ListedFault(init, i);
    } else {
      NoFault(init);
    }
  }

  lemma {:induction false} NoFault(rs: seq<Option<Result<seq<string>>>>)
    requires forall k :: 0 <= k < |rs| ==> rs[k].None? || rs[k].value.Ok?
    ensures FirstError(Listed(rs)).None?
  {
    hide Gained;
    if rs != [] {
      ListedLast(rs);
      NoFault(rs[..|rs| - 1]);
    }
  }

  /** People fail with the first source in trouble: its error, or that it holds a name twice. */
  lemma {:induction false} PeopleFault(rs: seq<Result<seq<Identity>>>, i: int)
    requires 0 <= i < |rs| && (rs[i].Err? || !NoRepeats(Names(rs[i].value)))
    requires forall k :: 0 <= k < i ==> rs[k].Ok? && NoRepeats(Names(rs[k].value))
    ensures MergePeople(rs) == Err(if rs[i].Err? then rs[i].error else Ambiguous)
  {
    TroubleAt(rs, i);
  }

  lemma {:induction false} TroubleAt(rs: seq<Result<seq<Identity>>>, i: int)
    requires 0 <= i < |rs| && (rs[i].Err? || !NoRepeats(Names(rs[i].value)))
    requires forall k :: 0 <= k < i ==> rs[k].Ok? && NoRepeats(Names(rs[k].value))
    ensures FirstTrouble(rs) == Some(if rs[i].Err? then rs[i].error else Ambiguous)
  {
    hide Names, NoRepeats;
    var init := rs[..|rs| - 1];
    TroubleFound(init);
    if i < |init| {
      TroubleAt(init, i);
    }
  }
}
