/** Where somebody is said to come from, when sets are nested: each set writes its source's name on those it hands
    out, unless a name is there already. */
module Labels {
  import opened Basics
  import opened Faults
  import opened Sources
  import opened Nesting
  import opened DirectorySet
  import opened SetMeaning

  predicate Knows(s: Source, name: string) {
    s.people.Ok? && name in Names(s.people.value)
  }

  ghost predicate KnownIn(ss: seq<Source>, name: string) {
    exists i :: 0 <= i < |ss| && Knows(ss[i], name)
  }

  /** The label somebody bears once their tree has been asked, if it handed them out. */
  ghost function LabelIn(t: Tree, id: Identity, before: Identity -> string): string {
    match t
    case Leaf(_) => before(id)
    case SetOf(ts) => LabelAmong(ts, id, before)
  }

  /** The first tree that knows the name labels its own, and the set then adds a label where there is none. */
  ghost function LabelAmong(ts: seq<Tree>, id: Identity, before: Identity -> string): string {
    if ts == [] then before(id)
    else if Knows(Built(ts[0]), id.name) then
      var l := LabelIn(ts[0], id, before);
      if l == "" then Built(ts[0]).describe else l
    else LabelAmong(ts[1..], id, before)
  }

  function LeafTrees(ss: seq<Source>): (ts: seq<Tree>)
    ensures |ts| == |ss|
  {
    Map((s: Source) => Leaf(s), ss)
  }

  /** For a set of sources that are no sets, it is what Set.Identities writes. */
  lemma {:induction false} FlatLabel(ss: seq<Source>, i: nat, id: Identity, before: Identity -> string)
    requires Owns(ss, i, id)
    ensures LabelAmong(LeafTrees(ss), id, before) == if before(id) == "" then ss[i].describe else before(id)
  {
    assert LeafTrees(ss)[1..] == LeafTrees(ss[1..]) && LeafTrees(ss)[0] == Leaf(ss[0]);
    if i == 0 {
      NameIn(ss[0].people.value, id);
    } else {
      var rest := ss[1..];
      forall k | 0 <= k < i - 1 && rest[k].people.Ok? ensures id.name !in Names(rest[k].people.value) {
        assert rest[k] == ss[k + 1];
      }
      assert rest[i - 1] == ss[i];
      FlatLabel(rest, i - 1, id, before);
    }
  }

  // ----- Who knows a name -----

  lemma KnownConcat(a: seq<Source>, b: seq<Source>, name: string)
    ensures KnownIn(a + b, name) <==> KnownIn(a, name) || KnownIn(b, name)
  {
    hide Knows;
    if i :| 0 <= i < |a| && Knows(a[i], name) {
      assert Knows((a + b)[i], name);
    }
    if i :| 0 <= i < |b| && Knows(b[i], name) {
      assert Knows((a + b)[|a| + i], name);
    }
  }

  lemma KnownOne(s: Source, name: string)
    ensures KnownIn([s], name) <==> Knows(s, name)
  {
    hide Knows;
    assert [s][0] == s;
  }

  /** A set knows the names its sources know. */
  lemma KnowsSet(ss: seq<Source>, name: string)
    requires AsSource(ss).people.Ok?
    ensures Knows(AsSource(ss), name) <==> KnownIn(ss, name)
    ensures forall i :: 0 <= i < |ss| ==> ss[i].people.Ok?
  {
    hide OwnersOnto, Names;
    var rs := Map((s: Source) => s.people, ss);
    TroubleFound(rs);
    forall i | 0 <= i < |ss| ensures ss[i].people.Ok? {
      assert rs[i].Ok?;
    }
    KnownNames(rs, name);
    OwnersNames([], Gained(rs));
    NoNames();
    if KnownIn(ss, name) {
      var i :| 0 <= i < |ss| && Knows(ss[i], name);
      assert rs[i].Ok? && name in Names(rs[i].value);
    }
    if i :| 0 <= i < |rs| && rs[i].Ok? && name in Names(rs[i].value) {
      assert Knows(ss[i], name);
    }
  }

  lemma NoNames()
    ensures Names([]) == []
  {}

  lemma {:induction false} KnowsTree(t: Tree, name: string)
    requires Built(t).people.Ok?
    ensures Knows(Built(t), name) <==> KnownIn(Leaves(t), name)
  {
    hide Knows;
    match t {
      case Leaf(s) =>
        assert Leaves(t)[0] == s;
      case SetOf(ts) =>
        KnowsSet(BuiltAll(ts), name);
        KnowsAll(ts, name);
    }
  }

  lemma {:induction false} KnowsAll(ts: seq<Tree>, name: string)
    requires forall i :: 0 <= i < |BuiltAll(ts)| ==> BuiltAll(ts)[i].people.Ok?
    ensures KnownIn(BuiltAll(ts), name) <==> KnownIn(LeavesAll(ts), name)
  {
    hide Knows;
    if ts != [] {
      TailsOk(ts);
      KnowsTree(ts[0], name);
      KnowsAll(ts[1..], name);
      KnownConcat(Leaves(ts[0]), LeavesAll(ts[1..]), name);
      KnownConcat([Built(ts[0])], BuiltAll(ts[1..]), name);
      KnownOne(Built(ts[0]), name);
    }
  }

  lemma TailsOk(ts: seq<Tree>)
    requires ts != [] && forall i :: 0 <= i < |BuiltAll(ts)| ==> BuiltAll(ts)[i].people.Ok?
    ensures Built(ts[0]).people.Ok?
    ensures forall i :: 0 <= i < |BuiltAll(ts[1..])| ==> BuiltAll(ts[1..])[i].people.Ok?
  {
    assert BuiltAll(ts)[0] == Built(ts[0]);
    forall i | 0 <= i < |BuiltAll(ts[1..])| ensures BuiltAll(ts[1..])[i].people.Ok? {
      assert BuiltAll(ts)[i + 1] == BuiltAll(ts[1..])[i];
    }
  }

  // ----- When the label does not depend on nesting -----

  /** The label the one set of a tree's leaves would give. */
  ghost function FlatOf(ts: seq<Tree>, id: Identity, before: Identity -> string): string {
    LabelAmong(LeafTrees(LeavesAll(ts)), id, before)
  }

  lemma {:induction false} LeafLabels(a: seq<Source>, b: seq<Source>, id: Identity, before: Identity -> string)
    ensures LabelAmong(LeafTrees(a + b), id, before) ==
            if KnownIn(a, id.name) then LabelAmong(LeafTrees(a), id, before) else LabelAmong(LeafTrees(b), id, before)
  {
    hide Knows;
    if a == [] {
      assert a + b == b;
    } else {
      assert (a + b)[1..] == a[1..] + b;
      assert LeafTrees(a + b)[1..] == LeafTrees((a + b)[1..]) && LeafTrees(a)[1..] == LeafTrees(a[1..]);
      assert LeafTrees(a + b)[0] == LeafTrees(a)[0] == Leaf(a[0]);
      LeafLabels(a[1..], b, id, before);
      KnownConcat([a[0]], a[1..], id.name);
      assert a == [a[0]] + a[1..];
      KnownOne(a[0], id.name);
    }
  }

  lemma SetLabel(ts: seq<Tree>, id: Identity, before: Identity -> string)
    requires Knows(Built(SetOf(ts)), id.name)
    ensures var l := LabelAmong(ts, id, before);
            LabelAmong([SetOf(ts)], id, before) == if l == "" then Built(SetOf(ts)).describe else l
  {
    hide Knows, AsSource;
    assert [SetOf(ts)][0] == SetOf(ts);
  }

  /** The first tree that knows a name. */
  ghost function FirstKnowing(ts: seq<Tree>, name: string): Tree
    requires KnownIn(BuiltAll(ts), name)
  {
    if Knows(Built(ts[0]), name) then ts[0]
    else
      KnownRest(ts[0], ts[1..], name);
      FirstKnowing(ts[1..], name)
  }

  /** A set describes itself as nothing only when it is empty or holds one source that does. */
  lemma BlankSet(ss: seq<Source>)
    requires AsSource(ss).describe == "" && ss != []
    ensures |ss| == 1 && ss[0].describe == ""
  {}

  /** A tree's label is the flat one where that is anything; otherwise it is blank just where the tree's own name is. */
  lemma {:induction false} TreeLabel(t: Tree, id: Identity, before: Identity -> string)
    requires Built(t).people.Ok? && Knows(Built(t), id.name)
    ensures var flat, nested := LabelAmong(LeafTrees(Leaves(t)), id, before), LabelAmong([t], id, before);
            if flat != "" then nested == flat else nested == "" <==> Built(t).describe == ""
  {
    hide Knows;
    match t {
      case Leaf(s) =>
        LeafLabel(s, id, before);
      case SetOf(ts) =>
        hide AsSource, LeafTrees, LabelAmong;
        SetLabel(ts, id, before);
        KnowsTree(t, id.name);
        KnowsSet(BuiltAll(ts), id.name);
        AllLabels(ts, id, before);
        if Built(t).describe == "" {
          BlankTree(ts, id.name);
        }
    }
  }

  lemma LeafLabel(s: Source, id: Identity, before: Identity -> string)
    requires Knows(s, id.name)
    ensures LeafTrees(Leaves(Leaf(s))) == [Leaf(s)]
    ensures LabelAmong([Leaf(s)], id, before) == if before(id) == "" then s.describe else before(id)
  {
    assert [Leaf(s)][0] == Leaf(s);
    assert LeafTrees([s]) == [Leaf(s)];
  }

  lemma BlankTree(ts: seq<Tree>, name: string)
    requires Built(SetOf(ts)).describe == "" && KnownIn(BuiltAll(ts), name)
    ensures Built(FirstKnowing(ts, name)).describe == ""
  {
    hide Knows, AsSource;
    BlankSet(BuiltAll(ts));
    assert BuiltAll(ts)[0] == Built(ts[0]);
    assert BuiltAll(ts)[1..] == BuiltAll(ts[1..]);
    KnownOne(Built(ts[0]), name);
    assert BuiltAll(ts) == [Built(ts[0])];
  }

  lemma {:induction false} AllLabels(ts: seq<Tree>, id: Identity, before: Identity -> string)
    requires forall i :: 0 <= i < |BuiltAll(ts)| ==> BuiltAll(ts)[i].people.Ok?
    requires KnownIn(BuiltAll(ts), id.name)
    ensures var flat, nested := FlatOf(ts, id, before), LabelAmong(ts, id, before);
            if flat != "" then nested == flat
            else nested == "" <==> Built(FirstKnowing(ts, id.name)).describe == ""
  {
    hide Knows, LeafTrees;
    if ts != [] {
      var t, rest := ts[0], ts[1..];
      TailsOk(ts);
      KnowsTree(t, id.name);
      LeafLabels(Leaves(t), LeavesAll(rest), id, before);
      if Knows(Built(t), id.name) {
        TreeLabel(t, id, before);
        assert [t][0] == t;
      } else {
        KnownRest(t, rest, id.name);
        AllLabels(rest, id, before);
      }
    }
  }

  lemma KnownRest(t: Tree, rest: seq<Tree>, name: string)
    requires KnownIn([Built(t)] + BuiltAll(rest), name) && !Knows(Built(t), name)
    ensures KnownIn(BuiltAll(rest), name)
  {
    hide Knows, Built, BuiltAll;
    KnownConcat([Built(t)], BuiltAll(rest), name);
    KnownOne(Built(t), name);
  }

  ghost predicate HandsOut(ss: seq<Source>, id: Identity) {
    AsSource(ss).people.Ok? && id in AsSource(ss).people.value
  }

  /** The label that a set of these sources leaves: the owner's name, unless there was one before. */
  ghost function OwnerLabel(ss: seq<Source>, i: nat, id: Identity, before: Identity -> string): string
    requires i < |ss|
  {
    if before(id) == "" then ss[i].describe else before(id)
  }

  /** Whoever a set of sets hands out is labelled as the one set of the same sources would label them if and only if
      that label is anything, or the part of the outer set that hands them out has no name to give either. */
  lemma LabelsNest(ts: seq<Tree>, id: Identity, before: Identity -> string) returns (i: nat)
    requires HandsOut(BuiltAll(ts), id)
    ensures HandsOut(LeavesAll(ts), id) && Owns(LeavesAll(ts), i, id) && KnownIn(BuiltAll(ts), id.name)
    ensures LabelAmong(ts, id, before) == OwnerLabel(LeavesAll(ts), i, id, before) <==>
            before(id) != "" || LeavesAll(ts)[i].describe != "" ||
            Built(FirstKnowing(ts, id.name)).describe == ""
  {
    hide AsSource, LabelAmong, Knows, Owns, FirstKnowing;
    NestedPeople(ts);
    HandedOut(BuiltAll(ts), id);
    KnowsSet(BuiltAll(ts), id.name);
    BuiltOk(ts);
    AllLabels(ts, id, before);
    i := Owner(LeavesAll(ts), id);
    OwnerThere(LeavesAll(ts), i, id);
    FlatLabel(LeavesAll(ts), i, id, before);
  }

  lemma OwnerThere(ss: seq<Source>, i: nat, id: Identity)
    requires Owns(ss, i, id)
    ensures i < |ss|
  {}

  lemma BuiltOk(ts: seq<Tree>)
    requires AsSource(BuiltAll(ts)).people.Ok?
    ensures forall i :: 0 <= i < |BuiltAll(ts)| ==> BuiltAll(ts)[i].people.Ok?
  {
    hide AsSource;
    KnowsSet(BuiltAll(ts), "");
  }

  lemma HandedOut(ss: seq<Source>, id: Identity)
    requires HandsOut(ss, id)
    ensures Knows(AsSource(ss), id.name)
  {
    hide AsSource;
    NameIn(AsSource(ss).people.value, id);
  }

  lemma Owner(ss: seq<Source>, id: Identity) returns (i: nat)
    requires HandsOut(ss, id)
    ensures Owns(ss, i, id)
  {
    hide MergePeople;
    var rs := Map((s: Source) => s.people, ss);
    PeopleAnswer(rs, id);
    i :| FirstKnows(rs, i, id);
    forall k | 0 <= k < i && ss[k].people.Ok? ensures id.name !in Names(ss[k].people.value) {
      assert rs[k] == ss[k].people;
    }
  }

  /** What always depends on it is the label of somebody whose name another source has in front: an inner set hands
      them out, and so labels them, where the flat set leaves them as they are. Neither outer set hands them out. */
  lemma ShadowedAreLabelled(a: Source, b: Source, x: Identity, y: Identity, before: Identity -> string)
    requires a.people == Ok([x]) && b.people == Ok([y]) && x != y && x.name == y.name
    ensures LabelIn(SetOf([Leaf(b)]), y, before) == if before(y) == "" then b.describe else before(y)
    ensures LabelIn(Leaf(b), y, before) == before(y)
    ensures AsSource([b]).people == Ok([y])
    ensures AsSource([a, AsSource([b])]).people == AsSource([a, b]).people == Ok([x])
  {
    hide AsSource, LabelIn;
    OnePerson(b, y);
    TwoPeople(a, b, x, y);
    TwoPeople(a, AsSource([b]), x, y);
    ShadowLabel(b, y, before);
  }

  lemma ShadowLabel(b: Source, y: Identity, before: Identity -> string)
    requires b.people == Ok([y])
    ensures LabelIn(SetOf([Leaf(b)]), y, before) == if before(y) == "" then b.describe else before(y)
    ensures LabelIn(Leaf(b), y, before) == before(y)
  {
    assert Names([y])[0] == y.name;
    LeafLabel(b, y, before);
  }

  lemma OnePerson(s: Source, y: Identity)
    requires s.people == Ok([y])
    ensures AsSource([s]).people == Ok([y])
  {
    hide FirstTrouble, Gained, OwnersOnto;
    var rs := Map((s: Source) => s.people, [s]);
    assert rs == [s.people];
    TroubleFound(rs);
    GainedOne(s.people);
    NobodyTaken([]);
    OwnersSnoc([], [], y);
    assert [] + [y] == [y] && Names([y]) == [y.name];
    NoNames();
  }

  lemma TwoPeople(s: Source, t: Source, x: Identity, y: Identity)
    requires s.people == Ok([x]) && t.people == Ok([y]) && x.name == y.name
    ensures AsSource([s, t]).people == Ok([x])
  {
    hide FirstTrouble, Gained, OwnersOnto;
    var rs := Map((s: Source) => s.people, [s, t]);
    assert rs == [s.people] + [t.people];
    TroubleFound(rs);
    GainedConcat([s.people], [t.people]);
    GainedOne(s.people);
    GainedOne(t.people);
    NobodyTaken([]);
    OwnersSnoc([], [], x);
    OwnersSnoc([], [x], y);
    assert [] + [x] == [x] && Names([x]) == [x.name];
    NoNames();
  }
}
