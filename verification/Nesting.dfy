/** A Set is itself a source. Nesting sets in sets changes no answer: what counts is the order of the leaves. */
module Nesting {
  import opened Basics
  import opened Ordering
  import opened Faults
  import opened AttributeLists
  import opened Sources

  function Describe(ss: seq<Source>): string {
    if ss == [] then ""
    else if |ss| == 1 then ss[0].describe
    else ss[0].describe + ", then " + Describe(ss[1..])
  }

  /** A Set of these sources, seen as one source. It lists, describes and classes groups, and reads nothing in bulk. */
  ghost function AsSource(ss: seq<Source>): Source {
    Source(
      Describe(ss),
      MergePeople(Map((s: Source) => s.people, ss)),
      (group: string) => MergeMembers(Map((s: Source) => s.members(group), ss)),
      Some((group: string) => MergeAttributes(Map((s: Source) => s.AskAttributes(group), ss))),
      Some((group: string) => MergeClasses(Map((s: Source) => s.AskClasses(group), ss))),
      Some(MergeNames(Map((s: Source) => s.names, ss))),
      None)
  }

  datatype Tree = Leaf(source: Source) | SetOf(parts: seq<Tree>)

  ghost function Built(t: Tree): Source {
    match t
    case Leaf(s) => s
    case SetOf(ts) => AsSource(BuiltAll(ts))
  }

  ghost function BuiltAll(ts: seq<Tree>): seq<Source> {
    if ts == [] then [] else [Built(ts[0])] + BuiltAll(ts[1..])
  }

  function Leaves(t: Tree): seq<Source> {
    match t
    case Leaf(s) => [s]
    case SetOf(ts) => LeavesAll(ts)
  }

  function LeavesAll(ts: seq<Tree>): seq<Source> {
    if ts == [] then [] else Leaves(ts[0]) + LeavesAll(ts[1..])
  }

  // ----- Any merge that absorbs its own results flattens -----

  /** `m` merges the answers `ask` gets. If a merged answer may stand where the answers it came from stood,
      a tree of sets answers as the one set of its leaves. */
  lemma TreeFlattens<R>(ask: Source -> R, m: seq<R> -> R, ts: seq<Tree>)
    requires forall ss: seq<Source> :: ask(AsSource(ss)) == m(Map(ask, ss))
    requires forall a: seq<R>, b: seq<R>, c: seq<R> :: m(a + [m(b)] + c) == m(a + b + c)
    ensures ask(AsSource(BuiltAll(ts))) == ask(AsSource(LeavesAll(ts)))
  {
    hide AsSource;
    FlattensAfter(ask, m, [], ts);
    assert [] + BuiltAll(ts) == BuiltAll(ts) && [] + LeavesAll(ts) == LeavesAll(ts);
  }

  /** The same, after whatever sources came before the tree. */
  lemma {:induction false} FlattensAfter<R>(ask: Source -> R, m: seq<R> -> R, before: seq<Source>, ts: seq<Tree>)
    requires forall ss: seq<Source> :: ask(AsSource(ss)) == m(Map(ask, ss))
    requires forall a: seq<R>, b: seq<R>, c: seq<R> :: m(a + [m(b)] + c) == m(a + b + c)
    ensures m(Map(ask, before + BuiltAll(ts))) == m(Map(ask, before + LeavesAll(ts)))
    decreases ts
  {
    hide AsSource, Map;
    if ts != [] {
      var t, rest := ts[0], ts[1..];
      FlattensAfter(ask, m, before + Leaves(t), rest);
      Regroup(before, [Built(t)], BuiltAll(rest));
      Regroup(before, Leaves(t), LeavesAll(rest));
      if t.SetOf? {
        FlattensAfter(ask, m, [], t.parts);
        assert [] + BuiltAll(t.parts) == BuiltAll(t.parts) && [] + Leaves(t) == Leaves(t);
        assert ask(Built(t)) == m(Map(ask, Leaves(t)));
        Spliced(ask, m, before, Built(t), Leaves(t), BuiltAll(rest));
      }
    }
  }

  lemma Spliced<R>(ask: Source -> R, m: seq<R> -> R, before: seq<Source>, set_: Source, leaves: seq<Source>,
        after: seq<Source>)
    requires forall a: seq<R>, b: seq<R>, c: seq<R> :: m(a + [m(b)] + c) == m(a + b + c)
    requires ask(set_) == m(Map(ask, leaves))
    ensures m(Map(ask, before + [set_] + after)) == m(Map(ask, before + leaves + after))
  {
    var a, b, c := Map(ask, before), Map(ask, leaves), Map(ask, after);
    assert Map(ask, before + [set_] + after) == a + [m(b)] + c;
    assert Map(ask, before + leaves + after) == a + b + c;
  }

  // ----- Each merge absorbs its own results -----

  lemma {:induction false} GainedConcat<T>(a: seq<Result<seq<T>>>, b: seq<Result<seq<T>>>)
    ensures Gained(a + b) == Gained(a) + Gained(b)
  {
    if b == [] {
      assert a + b == a;
    } else {
      var init := b[..|b| - 1];
      GainedConcat(a, init);
      assert (a + b)[..|a + b| - 1] == a + init;
      Regroup(Gained(a), Gained(init), match b[|b| - 1] case Ok(v) => v case Err(_) => []);
    }
  }

  lemma {:induction false} FirstFailureConcat<T>(a: seq<Result<T>>, b: seq<Result<T>>)
    ensures FirstFailure(a + b) == if FirstFailure(a).Some? then FirstFailure(a) else FirstFailure(b)
  {
    if b == [] {
      assert a + b == a;
    } else {
      FirstFailureConcat(a, b[..|b| - 1]);
      assert (a + b)[..|a + b| - 1] == a + b[..|b| - 1];
    }
  }

  lemma {:induction false} FirstErrorConcat<T>(a: seq<Result<T>>, b: seq<Result<T>>)
    ensures FirstError(a + b) == if FirstError(a).Some? then FirstError(a) else FirstError(b)
  {
    if b == [] {
      assert a + b == a;
    } else {
      FirstErrorConcat(a, b[..|b| - 1]);
      assert (a + b)[..|a + b| - 1] == a + b[..|b| - 1];
    }
  }

  lemma {:induction false} FirstDecisiveConcat(a: seq<Result<seq<string>>>, b: seq<Result<seq<string>>>)
    ensures FirstDecisive(a + b) == if FirstDecisive(a).Some? then FirstDecisive(a) else FirstDecisive(b)
  {
    if b == [] {
      assert a + b == a;
    } else {
      FirstDecisiveConcat(a, b[..|b| - 1]);
      assert (a + b)[..|a + b| - 1] == a + b[..|b| - 1];
    }
  }

  lemma {:induction false} ListedConcat(a: seq<Option<Result<seq<string>>>>, b: seq<Option<Result<seq<string>>>>)
    ensures Listed(a + b) == Listed(a) + Listed(b)
  {
    if b == [] {
      assert a + b == a;
    } else {
      var init := b[..|b| - 1];
      ListedConcat(a, init);
      assert (a + b)[..|a + b| - 1] == a + init;
      Regroup(Listed(a), Listed(init), match b[|b| - 1] case Some(r) => [r] case None => []);
    }
  }

  lemma {:induction false} FirstTroubleConcat(a: seq<Result<seq<Identity>>>, b: seq<Result<seq<Identity>>>)
    ensures FirstTrouble(a + b) == if FirstTrouble(a).Some? then FirstTrouble(a) else FirstTrouble(b)
  {
    if b == [] {
      assert a + b == a;
    } else {
      FirstTroubleConcat(a, b[..|b| - 1]);
      assert (a + b)[..|a + b| - 1] == a + b[..|b| - 1];
    }
  }

  lemma {:induction false} UnderAllConcat(a: seq<Result<Attrs>>, b: seq<Result<Attrs>>)
    ensures UnderAll(a + b) == UnderOf(UnderAll(a), UnderAll(b))
  {
    hide UnderOf;
    if b == [] {
      assert a + b == a;
      UnderUnit(UnderAll(a));
    } else {
      var init, last := b[..|b| - 1], b[|b| - 1];
      UnderAllConcat(a, init);
      assert (a + b)[..|a + b| - 1] == a + init;
      if last.Ok? {
        UnderAssociative(UnderAll(a), UnderAll(init), last.value);
      }
    }
  }

  lemma {:induction false} NothingGained<T>(rs: seq<Result<T>>)
    ensures AllMissing(rs) ==> FirstFailure(rs) == None
    ensures FirstFailure(rs).Some? ==> FirstFailure(rs).value != NoSuchGroup
  {
    if rs != [] {
      NothingGained(rs[..|rs| - 1]);
    }
  }

  lemma {:induction false} MissingGainsNothing<T>(rs: seq<Result<seq<T>>>)
    requires AllMissing(rs)
    ensures Gained(rs) == []
  {
    if rs != [] {
      MissingGainsNothing(rs[..|rs| - 1]);
    }
  }

  lemma GainedOne<T>(r: Result<seq<T>>)
    ensures Gained([r]) == match r case Ok(v) => v case Err(_) => []
  {
    assert [r][..0] == [];
  }

  lemma FirstFailureOne<T>(r: Result<T>)
    ensures FirstFailure([r]) == if r.Err? && r.error != NoSuchGroup then Some(r.error) else None
  {
    assert [r][..0] == [];
  }

  lemma AllMissingSplit<T>(a: seq<Result<T>>, b: seq<Result<T>>)
    ensures AllMissing(a + b) <==> AllMissing(a) && AllMissing(b)
  {
    if AllMissing(a + b) {
      forall i | 0 <= i < |a| ensures a[i].Err? && a[i].error == NoSuchGroup { assert (a + b)[i] == a[i]; }
      forall i | 0 <= i < |b| ensures b[i].Err? && b[i].error == NoSuchGroup { assert (a + b)[|a| + i] == b[i]; }
    }
  }

  /** What the merge of `b` says, said by one source, in the three respects a merge looks at. */
  lemma MembersOfOne(b: seq<Result<seq<string>>>)
    ensures var r := MergeMembers(b);
            && Gained([r]) == Dedup(Gained(b))
            && (Gained(b) == [] ==> FirstFailure([r]) == FirstFailure(b))
            && (AllMissing([r]) <==> AllMissing(b))
  {
    var r := MergeMembers(b);
    GainedOne(r);
    FirstFailureOne(r);
    NothingGained(b);
    if AllMissing(b) {
      MissingGainsNothing(b);
    }
    if Gained(b) == [] {
      DedupNothing<string>([]);
    } else {
      assert Gained(b)[0] in Dedup(Gained(b));
    }
    assert AllMissing([r]) <==> r == Err(NoSuchGroup) by {
      assert [r][0] == r;
    }
  }

  lemma {:induction false} MembersAbsorb(a: seq<Result<seq<string>>>, b: seq<Result<seq<string>>>,
        c: seq<Result<seq<string>>>)
    ensures MergeMembers(a + [MergeMembers(b)] + c) == MergeMembers(a + b + c)
  {
    hide MergeMembers;
    var r := [MergeMembers(b)];
    MembersOfOne(b);
    var ga, gb, gc := Gained(a), Gained(b), Gained(c);
    GainedConcat(a + r, c);
    GainedConcat(a, r);
    GainedConcat(a + b, c);
    GainedConcat(a, b);
    DedupConcat([], ga + Dedup(gb), gc);
    DedupConcat([], ga, Dedup(gb));
    DedupConcat([], ga + gb, gc);
    DedupConcat([], ga, gb);
    DedupTwice(Dedup(ga), gb);
    DedupEmpty(gb);
    FirstFailureConcat(a + r, c);
    FirstFailureConcat(a, r);
    FirstFailureConcat(a + b, c);
    FirstFailureConcat(a, b);
    AllMissingSplit(a + r, c);
    AllMissingSplit(a, r);
    AllMissingSplit(a + b, c);
    AllMissingSplit(a, b);
    MembersBySummary(a + r + c, a + b + c);
  }

  lemma DedupEmpty<T(!new)>(s: seq<T>)
    ensures Dedup(s) == [] <==> s == []
  {
    DedupNothing<T>([]);
    assert s != [] ==> s[0] in Dedup(s);
  }

  lemma MembersBySummary(p: seq<Result<seq<string>>>, q: seq<Result<seq<string>>>)
    requires Dedup(Gained(p)) == Dedup(Gained(q))
    requires Gained(p) == [] ==> FirstFailure(p) == FirstFailure(q)
    requires AllMissing(p) <==> AllMissing(q)
    ensures MergeMembers(p) == MergeMembers(q)
  {
    DedupEmpty(Gained(p));
    DedupEmpty(Gained(q));
  }

  lemma AttributesAbsorb(a: seq<Result<Attrs>>, b: seq<Result<Attrs>>, c: seq<Result<Attrs>>)
    ensures MergeAttributes(a + [MergeAttributes(b)] + c) == MergeAttributes(a + b + c)
  {
    hide UnderOf;
    var m := MergeAttributes(b);
    var r := [m];
    FirstFailureOne(m);
    NothingGained(b);
    FirstFailureConcat(a + r, c);
    FirstFailureConcat(a, r);
    FirstFailureConcat(a + b, c);
    FirstFailureConcat(a, b);
    AllMissingSplit(a + r, c);
    AllMissingSplit(a, r);
    AllMissingSplit(a + b, c);
    AllMissingSplit(a, b);
    assert r[0] == m;
    UnderAllConcat(a + r, c);
    UnderAllConcat(a, r);
    UnderAllConcat(a + b, c);
    UnderAllConcat(a, b);
    if FirstFailure(b).None? {
      MergedUnder(b);
    }
  }

  lemma MergedUnder(b: seq<Result<Attrs>>)
    requires FirstFailure(b).None?
    ensures UnderAll([MergeAttributes(b)]) == UnderAll(b)
  {
    var one: seq<Result<Attrs>> := [MergeAttributes(b)];
    var none: seq<Result<Attrs>> := [];
    assert one[..0] == none;
    if AllMissing(b) {
      MissingUnder(b);
    } else {
      UnderUnit(UnderAll(b));
    }
  }

  lemma {:induction false} MissingUnder(b: seq<Result<Attrs>>)
    requires AllMissing(b)
    ensures UnderAll(b) == []
  {
    if b != [] {
      MissingUnder(b[..|b| - 1]);
    }
  }

  lemma ClassesAbsorb(a: seq<Result<seq<string>>>, b: seq<Result<seq<string>>>, c: seq<Result<seq<string>>>)
    ensures MergeClasses(a + [MergeClasses(b)] + c) == MergeClasses(a + b + c)
  {
    var m := MergeClasses(b);
    var r := [m];
    assert r[..0] == [] && r[0] == m;
    DecisiveFound(b);
    assert FirstDecisive(r) == if Decisive(m) then Some(m) else None;
    FirstDecisiveConcat(a + r, c);
    FirstDecisiveConcat(a, r);
    FirstDecisiveConcat(a + b, c);
    FirstDecisiveConcat(a, b);
    AllMissingSplit(a + r, c);
    AllMissingSplit(a, r);
    AllMissingSplit(a + b, c);
    AllMissingSplit(a, b);
  }

  lemma {:induction false} DecisiveFound(b: seq<Result<seq<string>>>)
    ensures FirstDecisive(b).Some? ==> Decisive(FirstDecisive(b).value)
    ensures AllMissing(b) ==> FirstDecisive(b).None?
  {
    if b != [] {
      DecisiveFound(b[..|b| - 1]);
    }
  }

  lemma NamesAbsorb(
      a: seq<Option<Result<seq<string>>>>, b: seq<Option<Result<seq<string>>>>, c: seq<Option<Result<seq<string>>>>)
    ensures MergeNames(a + [Some(MergeNames(b))] + c) == MergeNames(a + b + c)
  {
    hide SortedSet, Gained, FirstError, Listed;
    var m := MergeNames(b);
    var r := [Some(m)];
    ListedOne(m);
    ListedConcat(a + r, c);
    ListedConcat(a, r);
    ListedConcat(a + b, c);
    ListedConcat(a, b);
    ListsAbsorb(Listed(a), Listed(b), Listed(c), m);
  }

  lemma ListedOne(m: Result<seq<string>>)
    ensures Listed([Some(m)]) == [m]
  {
    assert [Some(m)][..0] == [];
  }

  lemma ListsAbsorb(la: seq<Result<seq<string>>>, lb: seq<Result<seq<string>>>, lc: seq<Result<seq<string>>>,
        m: Result<seq<string>>)
    requires m == if Gained(lb) == [] && FirstError(lb).Some? then Err(FirstError(lb).value)
                  else Ok(SortedSet(StringLe, Gained(lb)))
    ensures var p, q := la + [m] + lc, la + lb + lc;
            && SortedSet(StringLe, Gained(p)) == SortedSet(StringLe, Gained(q))
            && (Gained(p) == [] <==> Gained(q) == [])
            && (Gained(p) == [] ==> FirstError(p) == FirstError(q))
  {
    hide SortedSet, Gained, FirstError;
    GainedOne(m);
    StringTotalOrder();
    SortedSetMeaning(StringLe, Gained(lb));
    SameMembersAround(Gained(la), Gained([m]), Gained(lb), Gained(lc));
    GainedConcat(la + [m], lc);
    GainedConcat(la, [m]);
    GainedConcat(la + lb, lc);
    GainedConcat(la, lb);
    FirstErrorConcat(la + [m], lc);
    FirstErrorConcat(la, [m]);
    FirstErrorConcat(la + lb, lc);
    FirstErrorConcat(la, lb);
    FirstErrorOne(m);
  }

  lemma FirstErrorOne<T>(r: Result<T>)
    ensures FirstError([r]) == if r.Err? then Some(r.error) else None
  {
    assert [r][..0] == [];
  }

  lemma SameMembersAround(a: seq<string>, g: seq<string>, h: seq<string>, c: seq<string>)
    requires forall x :: x in g <==> x in h
    ensures g == [] <==> h == []
    ensures SortedSet(StringLe, a + g + c) == SortedSet(StringLe, a + h + c)
  {
    hide SortedSet;
    assert g != [] ==> g[0] in g;
    assert h != [] ==> h[0] in h;
    StringTotalOrder();
    SortedSetUnique(StringLe, a + g + c, a + h + c);
  }

  // ----- People -----

  lemma NamesSnoc(ids: seq<Identity>, id: Identity)
    ensures Names(ids + [id]) == Names(ids) + [id.name]
  {}

  lemma {:induction false} OwnersConcat(acc: seq<Identity>, a: seq<Identity>, b: seq<Identity>)
    ensures OwnersOnto(acc, a + b) == OwnersOnto(OwnersOnto(acc, a), b)
  {
    if b == [] {
      assert a + b == a;
    } else {
      OwnersConcat(acc, a, b[..|b| - 1]);
      assert (a + b)[..|a + b| - 1] == a + b[..|b| - 1];
    }
  }

  lemma OwnersSnoc(acc: seq<Identity>, ids: seq<Identity>, id: Identity)
    ensures var r := OwnersOnto(acc, ids);
            OwnersOnto(acc, ids + [id]) == if id.name in Names(r) then r else r + [id]
  {
    assert (ids + [id])[..|ids|] == ids;
  }

  /** The names of the people kept: all of them, each once. */
  lemma {:induction false} OwnersNames(acc: seq<Identity>, ids: seq<Identity>)
    ensures Names(OwnersOnto(acc, ids)) == DedupOnto(Names(acc), Names(ids))
  {
    if ids != [] {
      var init, last := ids[..|ids| - 1], ids[|ids| - 1];
      OwnersNames(acc, init);
      NamesSnoc(init, last);
      NamesSnoc(OwnersOnto(acc, init), last);
      assert ids == init + [last];
      DedupSnoc(Names(acc), Names(init), last.name);
    } else {
      assert Names(ids) == [];
    }
  }

  lemma {:induction false} OwnersTwice(acc: seq<Identity>, ids: seq<Identity>)
    ensures OwnersOnto(acc, OwnersOnto([], ids)) == OwnersOnto(acc, ids)
  {
    if ids != [] {
      var init, last := ids[..|ids| - 1], ids[|ids| - 1];
      OwnersTwice(acc, init);
      OwnersNames([], init);
      OwnersNames(acc, init);
      OwnersSnoc(acc, OwnersOnto([], init), last);
    }
  }

  lemma PeopleAbsorb(a: seq<Result<seq<Identity>>>, b: seq<Result<seq<Identity>>>, c: seq<Result<seq<Identity>>>)
    ensures MergePeople(a + [MergePeople(b)] + c) == MergePeople(a + b + c)
  {
    var m := MergePeople(b);
    var r := [m];
    var ga, gb, gc := Gained(a), Gained(b), Gained(c);
    assert r[..0] == [] && r[0] == m;
    GainedOne(m);
    if m.Ok? {
      OwnersNames([], gb);
      DedupNoRepeats(Names([]), Names(gb));
      OwnersConcat([], ga + OwnersOnto([], gb), gc);
      OwnersConcat([], ga, OwnersOnto([], gb));
      OwnersConcat([], ga + gb, gc);
      OwnersConcat([], ga, gb);
      OwnersTwice(OwnersOnto([], ga), gb);
    }
    assert FirstTrouble(r) == FirstTrouble(b);
    FirstTroubleConcat(a + r, c);
    FirstTroubleConcat(a, r);
    FirstTroubleConcat(a + b, c);
    FirstTroubleConcat(a, b);
    GainedConcat(a + r, c);
    GainedConcat(a, r);
    GainedConcat(a + b, c);
    GainedConcat(a, b);
  }

  // ----- The theorem, question by question -----

  /** A set of sets, however deep, answers all five questions as the one set of the same sources in the same order. */
  lemma NestingDoesNotMatter(ts: seq<Tree>, group: string)
    ensures var nested, flat := AsSource(BuiltAll(ts)), AsSource(LeavesAll(ts));
            && nested.people == flat.people
            && nested.members(group) == flat.members(group)
            && nested.AskAttributes(group) == flat.AskAttributes(group)
            && nested.AskClasses(group) == flat.AskClasses(group)
            && nested.names == flat.names
  {
    NestedPeople(ts);
    NestedMembers(ts, group);
    NestedAttributes(ts, group);
    NestedClasses(ts, group);
    NestedNames(ts);
  }

  lemma NestedPeople(ts: seq<Tree>)
    ensures AsSource(BuiltAll(ts)).people == AsSource(LeavesAll(ts)).people
  {
    hide AsSource, Map, MergePeople;
    var ask := (s: Source) => s.people;
    forall ss: seq<Source> ensures ask(AsSource(ss)) == MergePeople(Map(ask, ss)) { PeopleOfSet(ss); }
    forall a, b, c ensures MergePeople(a + [MergePeople(b)] + c) == MergePeople(a + b + c) { PeopleAbsorb(a, b, c); }
    TreeFlattens(ask, MergePeople, ts);
  }

  lemma PeopleOfSet(ss: seq<Source>)
    ensures var ask := (s: Source) => s.people;
            AsSource(ss).people == MergePeople(Map(ask, ss))
  {
    hide Map, MergePeople;
  }

  lemma NestedMembers(ts: seq<Tree>, group: string)
    ensures AsSource(BuiltAll(ts)).members(group) == AsSource(LeavesAll(ts)).members(group)
  {
    hide AsSource, Map, MergeMembers;
    var ask := (s: Source) => s.members(group);
    forall ss: seq<Source> ensures ask(AsSource(ss)) == MergeMembers(Map(ask, ss)) { MembersOfSet(ss, group); }
    forall a, b, c ensures MergeMembers(a + [MergeMembers(b)] + c) == MergeMembers(a + b + c)
        { MembersAbsorb(a, b, c); }
    TreeFlattens(ask, MergeMembers, ts);
  }

  lemma MembersOfSet(ss: seq<Source>, group: string)
    ensures var ask := (s: Source) => s.members(group);
            AsSource(ss).members(group) == MergeMembers(Map(ask, ss))
  {
    hide Map, MergeMembers;
  }

  lemma NestedAttributes(ts: seq<Tree>, group: string)
    ensures AsSource(BuiltAll(ts)).AskAttributes(group) == AsSource(LeavesAll(ts)).AskAttributes(group)
  {
    hide AsSource, Map, MergeAttributes;
    var ask := (s: Source) => s.AskAttributes(group);
    forall ss: seq<Source> ensures ask(AsSource(ss)) == MergeAttributes(Map(ask, ss)) { AttributesOfSet(ss, group); }
    forall a, b, c ensures MergeAttributes(a + [MergeAttributes(b)] + c) == MergeAttributes(a + b + c)
        { AttributesAbsorb(a, b, c); }
    TreeFlattens(ask, MergeAttributes, ts);
  }

  lemma AttributesOfSet(ss: seq<Source>, group: string)
    ensures var ask := (s: Source) => s.AskAttributes(group);
            AsSource(ss).AskAttributes(group) == MergeAttributes(Map(ask, ss))
  {
    hide Map, MergeAttributes;
  }

  lemma NestedClasses(ts: seq<Tree>, group: string)
    ensures AsSource(BuiltAll(ts)).AskClasses(group) == AsSource(LeavesAll(ts)).AskClasses(group)
  {
    hide AsSource, Map, MergeClasses;
    var ask := (s: Source) => s.AskClasses(group);
    forall ss: seq<Source> ensures ask(AsSource(ss)) == MergeClasses(Map(ask, ss)) { ClassesOfSet(ss, group); }
    forall a, b, c ensures MergeClasses(a + [MergeClasses(b)] + c) == MergeClasses(a + b + c)
        { ClassesAbsorb(a, b, c); }
    TreeFlattens(ask, MergeClasses, ts);
  }

  lemma ClassesOfSet(ss: seq<Source>, group: string)
    ensures var ask := (s: Source) => s.AskClasses(group);
            AsSource(ss).AskClasses(group) == MergeClasses(Map(ask, ss))
  {
    hide Map, MergeClasses;
  }

  lemma NestedNames(ts: seq<Tree>)
    ensures AsSource(BuiltAll(ts)).names == AsSource(LeavesAll(ts)).names
  {
    hide AsSource, Map, MergeNames;
    var ask := (s: Source) => s.names;
    var m := (rs: seq<Option<Result<seq<string>>>>) => Some(MergeNames(rs));
    forall ss: seq<Source> ensures ask(AsSource(ss)) == m(Map(ask, ss)) { NamesOfSet(ss); }
    forall a, b, c ensures m(a + [m(b)] + c) == m(a + b + c) { NamesAbsorb(a, b, c); }
    TreeFlattens(ask, m, ts);
  }

  lemma NamesOfSet(ss: seq<Source>)
    ensures var ask := (s: Source) => s.names;
            AsSource(ss).names == Some(MergeNames(Map(ask, ss)))
  {
    hide Map, MergeNames;
  }
}
