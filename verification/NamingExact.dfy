/** The condition for trusting a bulk read at a name, shown exact: it looks at how entries are named and at nothing
    else, and where it fails, entries named the same way can be given members on which the answers part. */
module NamingExact {
  import opened Basics
  import opened Faults
  import opened DnKey
  import opened PeopleIndex
  import opened AttributeNames
  import opened AttributeLists
  import opened Sources
  import opened DirectorySet
  import opened LdapCopied
  import opened LdapGroups
  import opened LdapAnswers
  import opened LdapPromise
  import opened NameRules

  /** What an entry is named by. */
  function Naming(cfg: Config, sel: Selection, e: Entry): seq<Attribute> {
    Filter((a: Attribute) => sel(cfg.groupAttribute, a.name), e.attributes)
  }

  /** Directories that name their entries alike, one by one, whatever else the entries hold and whoever the people. */
  ghost predicate SameNaming(cfg: Config, dir: Directory, other: Directory) {
    && dir.groups.Ok? && other.groups.Ok? && dir.rule == other.rule && dir.selects == other.selects
    && |dir.groups.value| == |other.groups.value|
    && forall i :: 0 <= i < |dir.groups.value| ==>
         Naming(cfg, dir.selects, dir.groups.value[i]) == Naming(cfg, dir.selects, other.groups.value[i])
  }

  lemma NamesByNaming(cfg: Config, sel: Selection, e: Entry)
    ensures NamesOf(cfg, e) == FirstValues(Naming(cfg, sel, e), cfg.groupAttribute)
  {
    FirstValuesAnswered(e.attributes, (a: Attribute) => sel(cfg.groupAttribute, a.name), cfg.groupAttribute);
  }

  ghost predicate Matches(rule: NameRule, attrs: seq<Attribute>, group: string) {
    exists a :: a in attrs && exists j :: 0 <= j < |a.values| && rule(a.values[j], group)
  }

  lemma AnswersByNaming(cfg: Config, dir: Directory, e: Entry, group: string)
    ensures Answers(cfg, dir, e, group) <==> Matches(dir.rule, Naming(cfg, dir.selects, e), group)
  {
    if Answers(cfg, dir, e, group) {
      var i, j :| 0 <= i < |e.attributes| && 0 <= j < |e.attributes[i].values| &&
                  dir.selects(cfg.groupAttribute, e.attributes[i].name) && dir.rule(e.attributes[i].values[j], group);
      assert e.attributes[i] in Naming(cfg, dir.selects, e);
    }
    if Matches(dir.rule, Naming(cfg, dir.selects, e), group) {
      var a :| a in Naming(cfg, dir.selects, e) && exists j :: 0 <= j < |a.values| && dir.rule(a.values[j], group);
      var i :| 0 <= i < |e.attributes| && e.attributes[i] == a;
      var j :| 0 <= j < |a.values| && dir.rule(a.values[j], group);
      assert dir.rule(e.attributes[i].values[j], group);
    }
  }

  lemma SameEntry(cfg: Config, dir: Directory, other: Directory, e: Entry, f: Entry, group: string)
    requires dir.rule == other.rule && dir.selects == other.selects
    requires Naming(cfg, dir.selects, e) == Naming(cfg, dir.selects, f)
    ensures NamesOf(cfg, e) == NamesOf(cfg, f)
    ensures Answers(cfg, dir, e, group) <==> Answers(cfg, other, f, group)
    ensures IsNamed(cfg, e, ToLower(group)) <==> IsNamed(cfg, f, ToLower(group))
  {
    hide Answers, Matches, ToLower;
    NamesByNaming(cfg, dir.selects, e);
    NamesByNaming(cfg, dir.selects, f);
    AnswersByNaming(cfg, dir, e, group);
    AnswersByNaming(cfg, other, f, group);
  }

  lemma SameCondition(cfg: Config, dir: Directory, other: Directory, group: string)
    requires SameNaming(cfg, dir, other)
    ensures AllNames(cfg, dir.groups.value) == AllNames(cfg, other.groups.value)
    ensures FiledAsFound(cfg, dir, group) <==> FiledAsFound(cfg, other, group)
  {
    hide Answers, IsNamed, NamesOf, Naming, ToLower;
    var p, q := dir.groups.value, other.groups.value;
    forall i | 0 <= i < |p|
      ensures NamesOf(cfg, p[i]) == NamesOf(cfg, q[i])
      ensures Answers(cfg, dir, p[i], group) <==> Answers(cfg, other, q[i], group)
      ensures IsNamed(cfg, p[i], ToLower(group)) <==> IsNamed(cfg, q[i], ToLower(group))
    {
      SameEntry(cfg, dir, other, p[i], q[i], group);
    }
    assert Map((e: Entry) => NamesOf(cfg, e), p) == Map((e: Entry) => NamesOf(cfg, e), q);
  }

  // ----- One member to tell by -----

  /** The attribute that members are first read from. */
  function MemberName(cfg: Config): string {
    MemberAttributes(cfg)[0]
  }

  /** A member value that can mean somebody: no DN, or one that parses. */
  ghost predicate CanMean(cfg: Config, value: string) {
    MemberDn(cfg, MemberName(cfg), value) != Some([])
  }

  /** People among whom it does. */
  function Somebody(cfg: Config, value: string): seq<Entry> {
    [Entry(value, [Attribute(cfg.userAttribute, ["p"])])]
  }

  lemma SomebodyMeant(cfg: Config, value: string)
    requires CanMean(cfg, value)
    ensures Means(cfg, Known(cfg, Ok(Somebody(cfg, value))), MemberName(cfg), value).Some?
  {
    var people := Known(cfg, Ok(Somebody(cfg, value)));
    assert people == [Person(value, "p")];
    var dn := MemberDn(cfg, MemberName(cfg), value);
    if dn.Some? {
      assert PARSE_DN(value) == dn;
      KeyDecidesMatch(dn.value, dn.value);
      assert Named(people[0], dn.value);
    }
  }

  /** Who the value means. */
  ghost function Who(cfg: Config, value: string): string
    requires CanMean(cfg, value)
  {
    SomebodyMeant(cfg, value);
    Means(cfg, Known(cfg, Ok(Somebody(cfg, value))), MemberName(cfg), value).value
  }

  function Mark(cfg: Config, value: string, there: bool): seq<(string, string)> {
    if there then [(MemberName(cfg), value)] else []
  }

  lemma MarkAmong(cfg: Config, value: string, there: bool)
    requires CanMean(cfg, value)
    ensures MembersAmong(cfg, Ok(Somebody(cfg, value)), Mark(cfg, value, there)) ==
            Ok(if there then [Who(cfg, value)] else [])
  {
    hide Means, Known, MemberDn;
    SomebodyMeant(cfg, value);
    var occs, people := Mark(cfg, value, there), Known(cfg, Ok(Somebody(cfg, value)));
    if there {
      assert occs[..0] == [];
      assert Heard(cfg, people, occs) == [Who(cfg, value)];
    }
    DedupOfDistinct(Heard(cfg, people, occs));
  }

  // ----- The same names, and one member -----

  /** No attribute that holds members is a kind of the naming attribute. */
  ghost predicate MembersAreNoNames(cfg: Config, sel: Selection) {
    forall m :: m in MemberAttributes(cfg) ==> !sel(cfg.groupAttribute, m)
  }

  function Marked(cfg: Config, sel: Selection, e: Entry, value: string, mark: bool): Entry {
    Entry("", Naming(cfg, sel, e) + if mark then [Attribute(MemberName(cfg), [value])] else [])
  }

  function MarkedAll(cfg: Config, sel: Selection, es: seq<Entry>, value: string, k: nat): (r: seq<Entry>)
    ensures |r| == |es|
    ensures forall i :: 0 <= i < |es| ==> r[i] == Marked(cfg, sel, es[i], value, i == k)
  {
    seq(|es|, i requires 0 <= i < |es| => Marked(cfg, sel, es[i], value, i == k))
  }

  lemma {:induction false} FilterTwice<T(!new)>(p: T -> bool, s: seq<T>)
    ensures Filter(p, Filter(p, s)) == Filter(p, s)
  {
    if s != [] {
      var init, last := s[..|s| - 1], s[|s| - 1];
      FilterTwice(p, init);
      FilterConcat(p, Filter(p, init), [last]);
      FilterOne(p, last);
    }
  }

  lemma NamingOfMarked(cfg: Config, sel: Selection, e: Entry, value: string, mark: bool)
    requires MembersAreNoNames(cfg, sel)
    ensures Naming(cfg, sel, Marked(cfg, sel, e, value, mark)) == Naming(cfg, sel, e)
  {
    var p := (a: Attribute) => sel(cfg.groupAttribute, a.name);
    var m := Attribute(MemberName(cfg), [value]);
    FilterConcat(p, Naming(cfg, sel, e), if mark then [m] else []);
    FilterTwice(p, e.attributes);
    FilterOne(p, m);
    assert MemberName(cfg) in MemberAttributes(cfg);
  }

  lemma NoMembersNamed(cfg: Config, sel: Selection, e: Entry)
    requires MembersAreNoNames(cfg, sel)
    ensures forall m :: m in MemberAttributes(cfg) ==> !HasName(Naming(cfg, sel, e), m)
  {
    var names := Naming(cfg, sel, e);
    forall i | 0 <= i < |names| ensures sel(cfg.groupAttribute, names[i].name) {
      assert names[i] in names;
    }
  }

  lemma MarkedFirst(cfg: Config, sel: Selection, e: Entry, value: string, mark: bool, m: string)
    requires MembersAreNoNames(cfg, sel) && m in MemberAttributes(cfg)
    ensures FirstValues(Marked(cfg, sel, e, value, mark).attributes, m) ==
            if mark && m == MemberName(cfg) then [value] else []
  {
    hide Naming, FirstValues;
    var attrs := Marked(cfg, sel, e, value, mark).attributes;
    NoMembersNamed(cfg, sel, e);
    NoFirstValues(Naming(cfg, sel, e), m);
    if mark {
      assert attrs[..|attrs| - 1] == Naming(cfg, sel, e);
      FirstValuesLast(attrs, m);
    } else {
      assert attrs == Naming(cfg, sel, e);
    }
  }

  lemma MarkedHolds(cfg: Config, sel: Selection, e: Entry, value: string, mark: bool)
    requires MembersAreNoNames(cfg, sel)
    ensures ValuesIn(Marked(cfg, sel, e, value, mark).attributes, MemberAttributes(cfg)) == Mark(cfg, value, mark)
  {
    hide Marked, FirstValues;
    var attrs, all := Marked(cfg, sel, e, value, mark).attributes, MemberAttributes(cfg);
    MarkedFirst(cfg, sel, e, value, mark, all[0]);
    var one := [all[0]];
    assert one[..0] == [] && ValuesIn(attrs, one) == Mark(cfg, value, mark);
    if |all| == 2 {
      MarkedFirst(cfg, sel, e, value, mark, all[1]);
      assert all[..1] == one;
    } else {
      assert all == one;
    }
  }

  lemma OccurrencesSnoc(es: seq<Entry>, e: Entry, attrs: seq<string>)
    ensures Occurrences(es + [e], attrs) == Occurrences(es, attrs) + ValuesIn(e.attributes, attrs)
  {
    hide ValuesIn;
    assert (es + [e])[..|es|] == es;
  }

  lemma {:induction false} MarkHeard(cfg: Config, p: Entry -> bool, es: seq<Entry>, value: string, k: nat)
    requires forall i :: 0 <= i < |es| ==>
               ValuesIn(es[i].attributes, MemberAttributes(cfg)) == Mark(cfg, value, i == k)
    ensures Occurrences(Filter(p, es), MemberAttributes(cfg)) == Mark(cfg, value, k < |es| && p(es[k]))
  {
    hide ValuesIn, Occurrences;
    if es == [] {
      NoneHeard(cfg);
    } else {
      var init, last := es[..|es| - 1], es[|es| - 1];
      MarkHeard(cfg, p, init, value, k);
      OccurrencesSnoc(Filter(p, init), last, MemberAttributes(cfg));
    }
  }

  lemma NoneHeard(cfg: Config)
    ensures Occurrences([], MemberAttributes(cfg)) == []
  {}

  lemma MarkOfEntries(cfg: Config, sel: Selection, p: Entry -> bool, es: seq<Entry>, value: string, k: nat)
    requires MembersAreNoNames(cfg, sel) && CanMean(cfg, value)
    ensures var filtered := Filter(p, MarkedAll(cfg, sel, es, value, k));
            MembersAmong(cfg, Ok(Somebody(cfg, value)), Occurrences(filtered, MemberAttributes(cfg))) ==
            Ok(if k < |es| && p(MarkedAll(cfg, sel, es, value, k)[k]) then [Who(cfg, value)] else [])
  {
    hide MembersAmong, Occurrences, ValuesIn, Marked, Who, CanMean, Somebody;
    var marked := MarkedAll(cfg, sel, es, value, k);
    forall i | 0 <= i < |es|
      ensures ValuesIn(marked[i].attributes, MemberAttributes(cfg)) == Mark(cfg, value, i == k)
    {
      MarkedHolds(cfg, sel, es[i], value, i == k);
    }
    MarkHeard(cfg, p, marked, value, k);
    MarkAmong(cfg, value, k < |es| && p(marked[k]));
  }

  function MarkedDirectory(cfg: Config, dir: Directory, value: string, k: nat): Directory
    requires dir.groups.Ok?
  {
    dir.(groups := Ok(MarkedAll(cfg, dir.selects, dir.groups.value, value, k)), people := Ok(Somebody(cfg, value)))
  }

  lemma MarkedNaming(cfg: Config, dir: Directory, value: string, k: nat)
    requires MembersAreNoNames(cfg, dir.selects) && dir.groups.Ok?
    ensures SameNaming(cfg, dir, MarkedDirectory(cfg, dir, value, k))
  {
    hide Naming, Marked;
    forall i | 0 <= i < |dir.groups.value|
      ensures Naming(cfg, dir.selects, dir.groups.value[i]) ==
              Naming(cfg, dir.selects, MarkedAll(cfg, dir.selects, dir.groups.value, value, k)[i])
    {
      NamingOfMarked(cfg, dir.selects, dir.groups.value[i], value, i == k);
    }
  }

  /** A configuration that asks for everything, and a schema and a value by which a member can tell. */
  ghost predicate Telling(cfg: Config, sel: Selection, value: string) {
    AllCovered(cfg) && MembersAreNoNames(cfg, sel) && CanMean(cfg, value)
  }

  /** What the source and the bulk read say of a listed group when one entry alone has a member. */
  lemma MarkAnswers(cfg: Config, dir: Directory, group: string, value: string, k: nat)
    requires Telling(cfg, dir.selects, value) && dir.groups.Ok? && k < |dir.groups.value|
    requires group in AllNames(cfg, dir.groups.value)
    ensures var other := MarkedDirectory(cfg, dir, value, k);
            && MembersOf(cfg, other, group) ==
               Ok(if Answers(cfg, dir, dir.groups.value[k], group) then [Who(cfg, value)] else [])
            && DataOf(cfg, other, ToLower(group)).Ok?
            && DataOf(cfg, other, ToLower(group)).value.members ==
               if IsNamed(cfg, dir.groups.value[k], ToLower(group)) then [Who(cfg, value)] else []
  {
    hide Answers, IsNamed, MembersAmong, Occurrences, CopiedFrom, Naming, Marked, AllNames, ToLower, Who, CanMean;
    hide AllCovered, DataOf, MembersAreNoNames, Somebody;
    var es, other := dir.groups.value, MarkedDirectory(cfg, dir, value, k);
    MarkedNaming(cfg, dir, value, k);
    SameCondition(cfg, dir, other, group);
    assert Naming(cfg, dir.selects, es[k]) == Naming(cfg, dir.selects, other.groups.value[k]);
    SameEntry(cfg, dir, other, es[k], other.groups.value[k], group);
    ListedIsFound(cfg, other, other.groups.value, group);
    NothingLost(cfg, other, ToLower(group));
    MarkOfEntries(cfg, dir.selects, (e: Entry) => Answers(cfg, other, e, group), es, value, k);
    MarkOfEntries(cfg, dir.selects, (e: Entry) => IsNamed(cfg, e, ToLower(group)), es, value, k);
  }

  /** An entry found and not filed, or filed and not found, can tell the two apart. */
  lemma MarkTells(cfg: Config, dir: Directory, group: string, value: string, k: nat)
    returns (bulk: Result<map<string, GroupData>>)
    requires Telling(cfg, dir.selects, value) && dir.groups.Ok? && k < |dir.groups.value|
    requires group in AllNames(cfg, dir.groups.value)
    requires Answers(cfg, dir, dir.groups.value[k], group) != IsNamed(cfg, dir.groups.value[k], ToLower(group))
    ensures IsBulkRead(cfg, MarkedDirectory(cfg, dir, value, k), bulk) && bulk.Ok?
    ensures !AgreesAt(AsSource("", Ok([]), cfg, MarkedDirectory(cfg, dir, value, k), bulk), group)
  {
    hide Answers, IsNamed, AllNames, DataOf, MembersOf, AttributesOf, ClassesOf, MarkedAll, AgreesAt, ToLower, Who;
    var other := MarkedDirectory(cfg, dir, value, k);
    NoPeopleNoFault(cfg, other);
    bulk := ReadInBulk(cfg, other);
    MarkAnswers(cfg, dir, group, value, k);
    MarkedNaming(cfg, dir, value, k);
    SameCondition(cfg, dir, other, group);
    MembersApart(AsSource("", Ok([]), cfg, other, bulk), group);
  }

  ghost predicate CanBeTrusted(cfg: Config, dir: Directory, group: string) {
    forall other, bulk :: SameNaming(cfg, dir, other) && IsBulkRead(cfg, other, bulk) && bulk.Ok? ==>
      AgreesAt(AsSource("", Ok([]), cfg, other, bulk), group)
  }

  /** For a directory whose entries are named so, the bulk read agrees at a name whatever the entries hold besides
      if and only if the client files under it what the directory finds. */
  lemma ConditionExact(cfg: Config, dir: Directory, group: string, value: string)
    requires Telling(cfg, dir.selects, value) && dir.groups.Ok?
    ensures FiledAsFound(cfg, dir, group) <==> CanBeTrusted(cfg, dir, group)
  {
    hide Answers, IsNamed, AllNames, IsBulkRead, SameNaming, MarkedDirectory, AgreesAt, ToLower, AllCovered, CanMean;
    if FiledAsFound(cfg, dir, group) {
      forall other, bulk | SameNaming(cfg, dir, other) && IsBulkRead(cfg, other, bulk) && bulk.Ok?
        ensures AgreesAt(AsSource("", Ok([]), cfg, other, bulk), group)
      {
        TrustedThere(cfg, dir, other, bulk, group);
      }
    } else if group in AllNames(cfg, dir.groups.value) {
      var k :| 0 <= k < |dir.groups.value| &&
               Answers(cfg, dir, dir.groups.value[k], group) !=
               IsNamed(cfg, dir.groups.value[k], ToLower(group));
      MarkedNaming(cfg, dir, value, k);
      var bulk := MarkTells(cfg, dir, group, value, k);
      assert !CanBeTrusted(cfg, dir, group);
    } else {
      UnlistedTells(cfg, dir, group, value);
    }
  }

  lemma TrustedThere(
      cfg: Config, dir: Directory, other: Directory, bulk: Result<map<string, GroupData>>, group: string)
    requires SameNaming(cfg, dir, other) && IsBulkRead(cfg, other, bulk) && FiledAsFound(cfg, dir, group)
    requires AllCovered(cfg)
    ensures AgreesAt(AsSource("", Ok([]), cfg, other, bulk), group)
  {
    hide IsBulkRead, FiledAsFound, AgreesAt, AllCovered;
    SameCondition(cfg, dir, other, group);
    BulkReadAgrees("", Ok([]), cfg, other, bulk, group);
  }

  lemma UnlistedTells(cfg: Config, dir: Directory, group: string, value: string)
    requires Telling(cfg, dir.selects, value) && dir.groups.Ok?
    requires group !in AllNames(cfg, dir.groups.value) && !FiledAsFound(cfg, dir, group)
    ensures !CanBeTrusted(cfg, dir, group)
  {
    hide AllNames, IsBulkRead, SameNaming, FiledAsFound, AgreesAt, MarkedAll, AllCovered, CanMean;
    var other := MarkedDirectory(cfg, dir, value, 0);
    MarkedNaming(cfg, dir, value, 0);
    SameCondition(cfg, dir, other, group);
    NoPeopleNoFault(cfg, other);
    var bulk := ReadInBulk(cfg, other);
    BulkReadAgrees("", Ok([]), cfg, other, bulk, group);
  }
}
