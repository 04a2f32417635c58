/** Where the bulk read and the single question part: a directory finds a group by the equality rule of its naming
    attribute, and the client files entries by lower case. */
module NameRules {
  import opened Basics
  import opened Faults
  import opened AttributeNames
  import opened AttributeLists
  import opened Sources
  import opened DirectorySet
  import opened LdapCopied
  import opened LdapGroups
  import opened LdapAnswers
  import opened LdapPromise

  const PLAIN: Config := RawConfig.Config([], [], "uid", "", "cn", "", [])

  const MEMBER_ATTRIBUTES := ["memberUid", "member"]

  /** A server that returns no more than it must. */
  const STRICT: Selection := (w: string, n: string) => w == n || (IsAscii(w) && SameDescription(w, n))

  lemma PlainNames()
    ensures STRICT("cn", "cn") && !STRICT("cn", "memberUid") && !STRICT("cn", "member")
    ensures AllCovered(PLAIN)
  {
    hide SameDescription, AllCovered, ToLower;
    AsciiCovers(PLAIN);
    OtherType("memberUid");
    OtherType("member");
  }

  lemma OtherType(name: string)
    requires NoSemicolon(name) && |name| != 2
    ensures !SameDescription("cn", name)
  {
    hide Split;
    PlainType("cn");
    PlainType(name);
  }

  lemma PlainType(name: string)
    requires NoSemicolon(name)
    ensures Split(ToLower(name)) == [ToLower(name)]
  {
    assert forall i :: 0 <= i < |name| ==> ToLower(name)[i] == UNICODE_LOWER(name[i]);
    SplitOfPlain(ToLower(name));
  }

  lemma FilterOne<T(!new)>(p: T -> bool, x: T)
    ensures Filter(p, [x]) == if p(x) then [x] else []
  {
    assert [x][..0] == [];
  }

  lemma FilterTwo<T(!new)>(p: T -> bool, x: T, y: T)
    ensures Filter(p, [x, y]) == (if p(x) then [x] else []) + (if p(y) then [y] else [])
  {
    assert [x, y][..1] == [x];
    FilterOne(p, x);
  }

  // ----- Groups whose members are names -----

  ghost predicate HoldsNames(occs: seq<(string, string)>) {
    forall i :: 0 <= i < |occs| ==> occs[i].0 == "memberUid"
  }

  function Second(occs: seq<(string, string)>): seq<string> {
    Map((o: (string, string)) => o.1, occs)
  }

  lemma {:induction false} NamesHeard(occs: seq<(string, string)>)
    requires HoldsNames(occs)
    ensures Heard(PLAIN, [], occs) == Second(occs)
  {
    if occs != [] {
      var init, last := occs[..|occs| - 1], occs[|occs| - 1];
      NamesHeard(init);
      NotADn(last.1);
      assert Second(occs) == Second(init) + [last.1];
    }
  }

  lemma NotADn(value: string)
    ensures MemberDn(PLAIN, "memberUid", value) == None
  {}

  /** memberUid values are taken as they are written. */
  lemma NamesAmong(occs: seq<(string, string)>)
    requires HoldsNames(occs)
    ensures MembersAmong(PLAIN, Ok([]), occs) == Ok(Dedup(Second(occs)))
  {
    hide MemberDn;
    NamesHeard(occs);
    forall i | 0 <= i < |occs| ensures MemberDn(PLAIN, occs[i].0, occs[i].1) == None {
      NotADn(occs[i].1);
    }
  }

  // ----- Two names on which the rules differ -----

  function Group(cn: string, member: string): Entry {
    Entry("", [Attribute("cn", [cn]), Attribute("memberUid", [member])])
  }

  function TwoGroups(rule: NameRule, g: string, v: string): Directory {
    Directory(Ok([Group(g, "x"), Group(v, "y")]), Ok([]), rule, STRICT)
  }

  lemma GroupIsNamed(cn: string, member: string, folded: string)
    ensures NamesOf(PLAIN, Group(cn, member)) == [cn]
    ensures IsNamed(PLAIN, Group(cn, member), folded) <==> ToLower(cn) == folded
  {
    hide ToLower;
    assert NamesOf(PLAIN, Group(cn, member)) == [cn];
    assert [cn][0] == cn;
  }

  lemma GroupAnswers(dir: Directory, cn: string, member: string, asked: string)
    requires dir.selects == STRICT
    ensures Answers(PLAIN, dir, Group(cn, member), asked) <==> dir.rule(cn, asked)
  {
    hide STRICT;
    PlainNames();
    var e := Group(cn, member);
    assert e.attributes[0].values[0] == cn;
    assert forall i :: 0 <= i < |e.attributes| && STRICT("cn", e.attributes[i].name) ==> i == 0;
  }

  lemma GroupHolds(cn: string, member: string)
    ensures ValuesIn(Group(cn, member).attributes, MEMBER_ATTRIBUTES) == [("memberUid", member)]
  {
    var attrs, one := Group(cn, member).attributes, ["memberUid"];
    assert attrs[1..][1..] == [] && MEMBER_ATTRIBUTES[..1] == one && one[..0] == [];
    assert attrs[1..] == [Attribute("memberUid", [member])];
    assert FirstValues(attrs[1..], "member") == [];
    assert FirstValues(attrs, "memberUid") == [member] && FirstValues(attrs, "member") == [];
    hide FirstValues;
    assert ValuesIn(attrs, one) == [("memberUid", member)];
  }

  lemma OccurrencesOne(e: Entry)
    ensures Occurrences([e], MEMBER_ATTRIBUTES) == ValuesIn(e.attributes, MEMBER_ATTRIBUTES)
  {
    hide ValuesIn;
    assert [e][..0] == [];
  }

  lemma OccurrencesTwo(e: Entry, f: Entry)
    ensures Occurrences([e, f], MEMBER_ATTRIBUTES) ==
            ValuesIn(e.attributes, MEMBER_ATTRIBUTES) + ValuesIn(f.attributes, MEMBER_ATTRIBUTES)
  {
    hide ValuesIn;
    assert [e, f][..1] == [e];
    OccurrencesOne(e);
  }

  lemma MembersOfOne(g: string, member: string)
    ensures MembersAmong(PLAIN, Ok([]), Occurrences([Group(g, member)], MEMBER_ATTRIBUTES)) == Ok([member])
  {
    hide ValuesIn, MembersAmong, Occurrences, Group;
    GroupHolds(g, member);
    OccurrencesOne(Group(g, member));
    NamesAmong([("memberUid", member)]);
    assert Second([("memberUid", member)]) == [member];
    DedupOfDistinct([member]);
  }

  lemma MembersOfBoth(g: string, v: string)
    ensures MembersAmong(PLAIN, Ok([]), Occurrences([Group(g, "x"), Group(v, "y")], MEMBER_ATTRIBUTES)) ==
            Ok(["x", "y"])
  {
    hide ValuesIn, MembersAmong, Occurrences, Group;
    GroupHolds(g, "x");
    GroupHolds(v, "y");
    OccurrencesTwo(Group(g, "x"), Group(v, "y"));
    var two := [("memberUid", "x"), ("memberUid", "y")];
    assert [("memberUid", "x")] + [("memberUid", "y")] == two;
    NamesAmong(two);
    assert Second(two) == ["x", "y"];
    DedupOfDistinct(["x", "y"]);
  }

  /** The members of the first group, and of the second if it is there too. */
  lemma MembersOfTwo(g: string, v: string, both: bool)
    ensures var entries := [Group(g, "x")] + if both then [Group(v, "y")] else [];
            MembersAmong(PLAIN, Ok([]), Occurrences(entries, MEMBER_ATTRIBUTES)) ==
            Ok(if both then ["x", "y"] else ["x"])
  {
    hide MembersAmong, Occurrences, Group;
    var e, f := Group(g, "x"), Group(v, "y");
    if both {
      MembersOfBoth(g, v);
      assert [e] + [f] == [e, f];
    } else {
      MembersOfOne(g, "x");
      assert [e] + [] == [e];
    }
  }

  lemma NamesOfTwo(rule: NameRule, g: string, v: string)
    ensures AllNames(PLAIN, TwoGroups(rule, g, v).groups.value) == [g, v]
  {
    hide NamesOf;
    var es := TwoGroups(rule, g, v).groups.value;
    GroupIsNamed(g, "x", "");
    GroupIsNamed(v, "y", "");
    assert Map((e: Entry) => NamesOf(PLAIN, e), es) == [[g], [v]];
    assert [[g], [v]][1..] == [[v]] && [[v]][1..] == [];
    assert Flatten([[v]]) == [v];
  }

  lemma FoundOfTwo(rule: NameRule, g: string, v: string)
    ensures Found(PLAIN, TwoGroups(rule, g, v), TwoGroups(rule, g, v).groups.value, g) ==
            [Group(g, "x")] + if rule(v, g) then [Group(v, "y")] else []
    ensures Filed(PLAIN, TwoGroups(rule, g, v).groups.value, ToLower(g)) ==
            [Group(g, "x")] + if ToLower(v) == ToLower(g) then [Group(v, "y")] else []
  {
    hide Answers, IsNamed, ToLower, Group;
    var e, f := Group(g, "x"), Group(v, "y");
    var dir := TwoGroups(rule, g, v);
    GroupAnswers(dir, g, "x", g);
    GroupAnswers(dir, v, "y", g);
    GroupIsNamed(g, "x", ToLower(g));
    GroupIsNamed(v, "y", ToLower(g));
    FilterTwo((e: Entry) => Answers(PLAIN, dir, e, g), e, f);
    FilterTwo((e: Entry) => IsNamed(PLAIN, e, ToLower(g)), e, f);
  }

  /** Any two names on which the directory's rule and equality of lower case differ make a directory in which the
      source and the bulk read differ, at a name that is listed. */
  lemma TwoNamesDiffer(rule: NameRule, g: string, v: string, bulk: Result<map<string, GroupData>>)
    requires IsBulkRead(PLAIN, TwoGroups(rule, g, v), bulk)
    ensures MembersOf(PLAIN, TwoGroups(rule, g, v), g) == Ok(if rule(v, g) then ["x", "y"] else ["x"])
    ensures bulk.Ok? && g in bulk.value
    ensures bulk.value[g].members == if ToLower(v) == ToLower(g) then ["x", "y"] else ["x"]
  {
    hide Found, Filed, ToLower, MembersAmong, Occurrences, AllNames, CopiedFrom;
    var dir := TwoGroups(rule, g, v);
    FoundOfTwo(rule, g, v);
    MembersOfTwo(g, v, rule(v, g));
    MembersOfTwo(g, v, ToLower(v) == ToLower(g));
    NamesOfTwo(rule, g, v);
    assert [g, v][0] == g;
    NoPeopleNoFault(PLAIN, dir);
    PlainNames();
    NothingLost(PLAIN, dir, ToLower(g));
    assert DataOf(PLAIN, dir, ToLower(g)) == Ok(bulk.value[g]);
  }

  lemma NoPeopleNoFault(cfg: Config, dir: Directory)
    requires dir.groups.Ok? && dir.people.Ok?
    ensures forall folded :: DataOf(cfg, dir, folded).Ok?
  {
    hide ReadOf, Occurrences, CopiedFrom;
  }

  /** A rule that is equality of lower-case forms. */
  ghost predicate FoldsCase(rule: NameRule) {
    forall v, g :: rule(v, g) <==> ToLower(v) == ToLower(g)
  }

  ghost predicate AgreesWhereListed(cfg: Config, dir: Directory, bulk: Result<map<string, GroupData>>) {
    dir.groups.Ok? && bulk.Ok? ==>
      forall g :: g in AllNames(cfg, dir.groups.value) ==> AgreesAt(AsSource("", Ok([]), cfg, dir, bulk), g)
  }

  /** A directory with this rule, spelling the naming attribute as configured, and a bulk read that asks for all. */
  ghost predicate ReadUnder(rule: NameRule, cfg: Config, dir: Directory, bulk: Result<map<string, GroupData>>) {
    && dir.rule == rule && IsBulkRead(cfg, dir, bulk) && AllCovered(cfg)
    && (dir.groups.Ok? ==> ReadAsHeld(cfg, dir, dir.groups.value))
  }

  /** The rules under which the bulk read can be trusted: those that are equality of lower-case forms, and no other. */
  lemma RuleExact(rule: NameRule)
    ensures FoldsCase(rule) <==>
            forall cfg, dir, bulk :: ReadUnder(rule, cfg, dir, bulk) ==> AgreesWhereListed(cfg, dir, bulk)
  {
    hide AllNames, AgreesAt, IsBulkRead, ToLower, ReadAsHeld;
    if FoldsCase(rule) {
      forall cfg, dir, bulk | ReadUnder(rule, cfg, dir, bulk) ensures AgreesWhereListed(cfg, dir, bulk) {
        FoldingAgrees(cfg, dir, bulk);
      }
    } else {
      var v, g :| rule(v, g) != (ToLower(v) == ToLower(g));
      var bulk := TwoGroupsDisagree(rule, g, v);
      assert !AgreesWhereListed(PLAIN, TwoGroups(rule, g, v), bulk);
    }
  }

  lemma FoldingAgrees(cfg: Config, dir: Directory, bulk: Result<map<string, GroupData>>)
    requires FoldsCase(dir.rule) && ReadUnder(dir.rule, cfg, dir, bulk)
    ensures AgreesWhereListed(cfg, dir, bulk)
  {
    hide AllNames, AgreesAt, IsBulkRead, ToLower, ReadAsHeld, Filed, FiledAsFound;
    if dir.groups.Ok? && bulk.Ok? {
      forall g | g in AllNames(cfg, dir.groups.value) ensures AgreesAt(AsSource("", Ok([]), cfg, dir, bulk), g) {
        FoldingRule(cfg, dir, g);
        BulkReadAgrees("", Ok([]), cfg, dir, bulk, g);
      }
    }
  }

  lemma TwoGroupsDisagree(rule: NameRule, g: string, v: string) returns (bulk: Result<map<string, GroupData>>)
    requires rule(v, g) != (ToLower(v) == ToLower(g))
    ensures ReadUnder(rule, PLAIN, TwoGroups(rule, g, v), bulk)
    ensures !AgreesWhereListed(PLAIN, TwoGroups(rule, g, v), bulk)
  {
    hide AllNames, IsBulkRead, ToLower, ReadAsHeld, MembersOf, AgreesAt, DataOf, AttributesOf, ClassesOf;
    var dir := TwoGroups(rule, g, v);
    PlainNames();
    NoPeopleNoFault(PLAIN, dir);
    bulk := ReadInBulk(PLAIN, dir);
    TwoNamesDiffer(rule, g, v, bulk);
    TwoReadAsHeld(rule, g, v);
    NamesOfTwo(rule, g, v);
    assert [g, v][0] == g;
    MembersApart(AsSource("", Ok([]), PLAIN, dir, bulk), g);
  }

  lemma MembersApart(src: Source, group: string)
    requires src.bulk.Some? && src.bulk.value.Ok? && group in src.bulk.value.value
    requires src.members(group) != Ok(src.bulk.value.value[group].members)
    ensures !AgreesAt(src, group)
  {}

  lemma TwoReadAsHeld(rule: NameRule, g: string, v: string)
    ensures ReadAsHeld(PLAIN, TwoGroups(rule, g, v), TwoGroups(rule, g, v).groups.value)
  {
    GroupReadAsHeld(TwoGroups(rule, g, v), g, "x");
    GroupReadAsHeld(TwoGroups(rule, g, v), v, "y");
  }

  lemma GroupReadAsHeld(dir: Directory, cn: string, member: string)
    requires dir.selects == STRICT
    ensures forall name :: Holds(PLAIN, dir, Group(cn, member), name) ==> name in NamesOf(PLAIN, Group(cn, member))
  {
    hide STRICT;
    PlainNames();
    GroupIsNamed(cn, member, "");
    var e := Group(cn, member);
    assert forall i :: 0 <= i < |e.attributes| && STRICT("cn", e.attributes[i].name) ==> i == 0;
  }

  /** A bulk read that no failure of the people search spoils. */
  lemma ReadInBulk(cfg: Config, dir: Directory) returns (bulk: Result<map<string, GroupData>>)
    requires dir.groups.Ok? && forall folded :: DataOf(cfg, dir, folded).Ok?
    ensures bulk.Ok? && IsBulkRead(cfg, dir, bulk)
  {
    hide AllNames, DataOf, ToLower;
    bulk := Ok(map n | n in AllNames(cfg, dir.groups.value) :: DataOf(cfg, dir, ToLower(n)).value);
  }

  // ----- Three inputs -----

  /** One space for each run of them: what caseIgnoreMatch does with spaces, in part (section 2.6.1 of RFC 4518). */
  function Squeezed(s: string): string {
    if |s| >= 2 && s[0] == ' ' && s[1] == ' ' then Squeezed(s[1..])
    else if s == "" then ""
    else [s[0]] + Squeezed(s[1..])
  }

  const BY_WORDS: NameRule := (v: string, w: string) => Squeezed(ToLower(v)) == Squeezed(ToLower(w))

  const BY_CASE: NameRule := (v: string, w: string) => ToLower(v) == ToLower(w)

  /** Two entries named alike but for a space: asked about one group, the directory has the members of both; read in
      bulk, they are two groups, although the name is listed. */
  lemma SpacesDiffer(bulk: Result<map<string, GroupData>>)
    requires IsBulkRead(PLAIN, TwoGroups(BY_WORDS, "a b", "a  b"), bulk)
    ensures MembersOf(PLAIN, TwoGroups(BY_WORDS, "a b", "a  b"), "a b") == Ok(["x", "y"])
    ensures bulk.Ok? && "a b" in bulk.value && bulk.value["a b"].members == ["x"]
  {
    hide IsBulkRead, MembersOf;
    TwoNamesDiffer(BY_WORDS, "a b", "a  b", bulk);
    assert ToLower("a b") == "a b" && ToLower("a  b") == "a  b";
    hide ToLower;
    SqueezedWords();
  }

  lemma SqueezedWords()
    ensures Squeezed("a  b") == Squeezed("a b")
  {
    assert "a  b"[1..] == "  b" && "  b"[1..] == " b" && "a b"[1..] == " b";
    assert Squeezed("  b") == Squeezed(" b");
  }

  const ONE_GROUP := Directory(Ok([Group("Staff", "a")]), Ok([]), BY_CASE, STRICT)

  /** One group, spelled one way and asked for in another: the source has its members, its bulk read does not. */
  lemma FoldedNameDiffers(describe: string, ids: Result<seq<Identity>>, bulk: Result<map<string, GroupData>>)
    requires IsBulkRead(PLAIN, ONE_GROUP, bulk)
    ensures MembersOf(PLAIN, ONE_GROUP, "staff") == Ok(["a"])
    ensures bulk.Ok? && !AgreesAt(AsSource(describe, ids, PLAIN, ONE_GROUP, bulk), "staff")
  {
    hide AgreesAt, Found, Filed, MembersAmong, Occurrences, ToLower, CopiedFrom, FiledAsFound, Answers, AllNames;
    StaffFound();
    NoPeopleNoFault(PLAIN, ONE_GROUP);
    BulkReadAgrees(describe, ids, PLAIN, ONE_GROUP, bulk, "staff");
    UnlistedFound(PLAIN, ONE_GROUP, "staff");
  }

  lemma StaffFound()
    ensures AllNames(PLAIN, [Group("Staff", "a")]) == ["Staff"]
    ensures Found(PLAIN, ONE_GROUP, [Group("Staff", "a")], "staff") == [Group("Staff", "a")]
    ensures Answers(PLAIN, ONE_GROUP, [Group("Staff", "a")][0], "staff")
    ensures MembersAmong(PLAIN, Ok([]), Occurrences([Group("Staff", "a")], MEMBER_ATTRIBUTES)) == Ok(["a"])
  {
    hide Answers, MembersAmong, Occurrences, Group, NamesOf, BY_CASE;
    var e := Group("Staff", "a");
    StaffFolds();
    hide ToLower;
    GroupAnswers(ONE_GROUP, "Staff", "a", "staff");
    FilterOne((x: Entry) => Answers(PLAIN, ONE_GROUP, x, "staff"), e);
    GroupIsNamed("Staff", "a", "");
    OneName(e, "Staff");
    MembersOfOne("Staff", "a");
  }

  lemma StaffFolds()
    ensures BY_CASE("Staff", "staff")
  {
    assert ToLower("staff") == "staff" == ToLower("Staff");
  }

  lemma OneName(e: Entry, name: string)
    requires NamesOf(PLAIN, e) == [name]
    ensures AllNames(PLAIN, [e]) == [name]
  {
    hide NamesOf;
    assert Map((x: Entry) => NamesOf(PLAIN, x), [e]) == [[name]];
    assert [[name]][1..] == [];
    assert Flatten([[name]]) == [name];
  }

  const SMALL := Group("staff", "a")

  function SmallDirectory(rule: NameRule, selects: Selection): Directory {
    Directory(Ok([SMALL]), Ok([]), rule, selects)
  }

  /** The naming attribute configured in capitals, and returned in small letters: found, and never read. */
  lemma CapitalsDiffer(cfg: Config, rule: NameRule, selects: Selection, bulk: Result<map<string, GroupData>>)
    requires cfg.groupAttribute == "CN" && IsBulkRead(cfg, SmallDirectory(rule, selects), bulk)
    ensures ClassesOf(cfg, SmallDirectory(rule, selects), "staff").Ok? && (bulk.Ok? ==> "staff" !in bulk.value)
  {
    hide Answers, AllNames, DataOf, ToLower, SMALL;
    var dir := SmallDirectory(rule, selects);
    CapitalsFound(cfg, dir);
    CapitalsRead(cfg);
    FilterOne((x: Entry) => Answers(cfg, dir, x, "staff"), SMALL);
  }

  lemma CapitalsFound(cfg: Config, dir: Directory)
    requires cfg.groupAttribute == "CN"
    ensures Answers(cfg, dir, SMALL, "staff")
  {
    assert ToLower("CN") == "cn" == ToLower("cn");
    assert dir.selects("CN", "cn");
    assert SMALL.attributes[0].values[0] == "staff";
  }

  lemma CapitalsRead(cfg: Config)
    requires cfg.groupAttribute == "CN"
    ensures AllNames(cfg, [SMALL]) == []
  {
    var attrs := SMALL.attributes;
    assert attrs[1..] == [Attribute("memberUid", ["a"])] && attrs[1..][1..] == [];
    assert FirstValues(attrs[1..], "CN") == [];
    assert NamesOf(cfg, SMALL) == [];
    hide NamesOf, SMALL;
    var none: seq<seq<string>> := [[]];
    assert Map((x: Entry) => NamesOf(cfg, x), [SMALL]) == none;
    assert none[1..] == [];
    assert Flatten(none) == [];
  }
}
