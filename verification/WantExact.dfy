/** Which configurations the one search of a bulk read serves: those in which every attribute dropped as asked for
    already is asked for, to a server, as well as to the client. */
module WantExact {
  import opened Basics
  import opened Faults
  import opened Folding
  import opened AttributeNames
  import opened AttributeLists
  import opened Sources
  import opened DirectorySet
  import opened LdapCopied
  import opened LdapGroups
  import opened LdapAnswers
  import opened LdapPromise
  import opened NameRules

  // ----- One group, with one attribute that the one search does not bring -----

  function Full(cfg: Config, a: string): Entry {
    Entry("", [Attribute(cfg.groupAttribute, ["g"]), Attribute(a, ["x"])])
  }

  function Bare(cfg: Config): Entry {
    Entry("", [Attribute(cfg.groupAttribute, ["g"])])
  }

  function OneGroup(cfg: Config, a: string, people: Result<seq<Entry>>): Directory {
    Directory(Ok([Full(cfg, a)]), people, BY_CASE, STRICT)
  }

  lemma FullIsNamed(cfg: Config, a: string, people: Result<seq<Entry>>)
    ensures NamesOf(cfg, Full(cfg, a)) == ["g"]
    ensures AllNames(cfg, [Full(cfg, a)]) == ["g"]
    ensures Answers(cfg, OneGroup(cfg, a, people), Full(cfg, a), "g")
    ensures IsNamed(cfg, Full(cfg, a), ToLower("g"))
  {
    hide ToLower;
    var e, dir := Full(cfg, a), OneGroup(cfg, a, people);
    assert NamesOf(cfg, e)[0] == "g";
    assert dir.rule(e.attributes[0].values[0], "g") && dir.selects(cfg.groupAttribute, e.attributes[0].name);
    assert Map((x: Entry) => NamesOf(cfg, x), [e]) == [["g"]];
    assert [["g"]][1..] == [] && Flatten([["g"]]) == ["g"];
  }

  lemma FullIsFiled(cfg: Config, a: string, people: Result<seq<Entry>>)
    ensures var dir := OneGroup(cfg, a, people);
            && Found(cfg, dir, [Full(cfg, a)], "g") == [Full(cfg, a)]
            && Filed(cfg, [Full(cfg, a)], ToLower("g")) == [Full(cfg, a)]
            && FiledAsFound(cfg, dir, "g")
  {
    hide NamesOf, Answers, IsNamed, ToLower, Full;
    var e, dir := Full(cfg, a), OneGroup(cfg, a, people);
    FullIsNamed(cfg, a, people);
    FilterOne((x: Entry) => Answers(cfg, dir, x, "g"), e);
    FilterOne((x: Entry) => IsNamed(cfg, x, ToLower("g")), e);
  }

  lemma FilterBoth<T(!new)>(p: T -> bool, x: T, y: T)
    requires p(x) && !p(y)
    ensures Filter(p, [x, y]) == [x]
  {
    FilterTwo(p, x, y);
  }

  /** The attribute that is not covered is not returned. */
  lemma BareIsRead(cfg: Config, a: string, people: Result<seq<Entry>>)
    requires !Covered(WantOf(cfg), a)
    ensures ReadOf(cfg, OneGroup(cfg, a, people), ToLower("g")) == [Bare(cfg)]
  {
    hide WantOf, SameDescription, IsAscii;
    var e, want := Full(cfg, a), WantOf(cfg);
    FullIsFiled(cfg, a, people);
    NamingCovered(cfg);
    CoveredIsSelected(STRICT, want, cfg.groupAttribute);
    var p := (x: Attribute) => exists i :: 0 <= i < |want| && STRICT(want[i], x.name);
    forall i | 0 <= i < |want| ensures !STRICT(want[i], a) {
      assert !(want[i] == a || (IsAscii(want[i]) && SameDescription(want[i], a)));
    }
    FilterBoth(p, e.attributes[0], e.attributes[1]);
    assert Answer(STRICT, e, want) == Bare(cfg);
    assert Search(STRICT, [e], want) == [Bare(cfg)];
  }

  lemma MergedOne(e: Entry)
    ensures MergedAttributes([e]) == e.attributes
  {
    MergedSnoc([], e);
    assert [] + [e] == [e];
    assert MergedAttributes([]) == [];
  }

  lemma OccurrencesOf(e: Entry, attrs: seq<string>)
    ensures Occurrences([e], attrs) == ValuesIn(e.attributes, attrs)
  {
    hide ValuesIn;
    assert [e][..0] == [];
  }

  // ----- An attribute to copy -----

  lemma ValuesLost(cfg: Config, a: string)
    ensures "x" in ValuesOf(Full(cfg, a).attributes, a)
    ensures "x" !in ValuesOf(Bare(cfg).attributes, a)
  {
    hide SameDescription, NonEmpty;
    var full, bare := Full(cfg, a).attributes, Bare(cfg).attributes;
    SameAsItself(a);
    assert full[..1] == bare && bare[..0] == [];
    KeptAsIs("x");
    KeptAsIs("g");
  }

  lemma KeptAsIs(v: string)
    requires v != ""
    ensures NonEmpty([v]) == [v]
  {
    FilterOne((v: string) => v != "", v);
  }

  lemma CopyLost(cfg: Config, a: string)
    requires a in cfg.groupAttributes
    ensures "x" in ValuesUnder(CopiedFrom(cfg, Full(cfg, a).attributes), Canonical(a))
    ensures "x" !in ValuesUnder(CopiedFrom(cfg, Bare(cfg).attributes), Canonical(a))
  {
    hide Canonical, CopyList, AddAll, ValuesUnder, ValuesOf, Full, Bare, WellFormed;
    CopiedMeaning(Full(cfg, a).attributes, cfg.groupAttributes, a);
    CopiedMeaning(Bare(cfg).attributes, cfg.groupAttributes, a);
    var i :| 0 <= i < |cfg.groupAttributes| && cfg.groupAttributes[i] == a;
    assert Canonical(cfg.groupAttributes[i]) == Canonical(a);
    ValuesLost(cfg, a);
  }

  lemma AttributesApart(src: Source, group: string)
    requires src.bulk.Some? && src.bulk.value.Ok? && group in src.bulk.value.value
    requires src.AskAttributes(group) != Ok(src.bulk.value.value[group].attributes)
    ensures !AgreesAt(src, group)
  {}

  lemma CopyTells(cfg: Config, a: string) returns (bulk: Result<map<string, GroupData>>)
    requires a in cfg.groupAttributes && !Covered(WantOf(cfg), a)
    ensures Disagrees(cfg, OneGroup(cfg, a, Ok([])), bulk, "g")
    ensures AttributesOf(cfg, OneGroup(cfg, a, Ok([])), "g") == Ok(CopiedFrom(cfg, Full(cfg, a).attributes))
    ensures "g" in bulk.value && bulk.value["g"].attributes == CopiedFrom(cfg, Bare(cfg).attributes)
  {
    hide WantOf, Covered, CopiedFrom, MembersAmong, Occurrences, ReadOf, Found, FiledAsFound, AgreesAt, AllNames;
    hide Full, Bare, ToLower, Answers, IsNamed, MembersOf, ClassesOf;
    var dir := OneGroup(cfg, a, Ok([]));
    FullIsNamed(cfg, a, Ok([]));
    FullIsFiled(cfg, a, Ok([]));
    BareIsRead(cfg, a, Ok([]));
    MergedOne(Full(cfg, a));
    MergedOne(Bare(cfg));
    NamingCovered(cfg);
    CopyLost(cfg, a);
    NoPeopleNoFault(cfg, dir);
    bulk := ReadInBulk(cfg, dir);
    assert ["g"][0] == "g";
    assert DataOf(cfg, dir, ToLower("g")) == Ok(bulk.value["g"]);
    AttributesApart(AsSource("", Ok([]), cfg, dir, bulk), "g");
  }

  /** A bulk read of a directory that files the group as it is found, and yet answers otherwise. */
  ghost predicate Disagrees(cfg: Config, dir: Directory, bulk: Result<map<string, GroupData>>, group: string) {
    && ReadWell(cfg, dir, bulk, group)
    && !AgreesAt(AsSource("", Ok([]), cfg, dir, bulk), group)
  }

  ghost predicate ReadWell(cfg: Config, dir: Directory, bulk: Result<map<string, GroupData>>, group: string) {
    dir.groups.Ok? && IsBulkRead(cfg, dir, bulk) && bulk.Ok? && FiledAsFound(cfg, dir, group)
  }

  // ----- An attribute that holds members -----

  lemma {:induction false} WantGrows(want: seq<string>, more: seq<string>, k: nat)
    requires k <= |more|
    ensures WantFrom(want, more[..k]) <= WantFrom(want, more)
  {
    hide Wanted;
    if k < |more| {
      var init := more[..|more| - 1];
      WantGrows(want, init, k);
      assert init[..k] == more[..k];
    } else {
      assert more[..k] == more;
    }
  }

  /** What is dropped is the same as something asked for before it. */
  lemma DroppedIsWanted(want: seq<string>, more: seq<string>, k: nat)
    requires k < |more| && more[k] !in WantFrom(want, more)
    ensures Wanted(WantFrom(want, more[..k]), more[k])
  {
    hide Wanted;
    var upTo := more[..k + 1];
    WantGrows(want, more, k + 1);
    assert upTo[..k] == more[..k] && upTo[k] == more[k];
    assert forall w :: w in WantFrom(want, upTo) ==> w in WantFrom(want, more);
  }

  lemma WantedLength(want: seq<string>, a: string)
    requires Wanted(want, a)
    ensures exists w :: w in want && |w| == |a|
  {
    var i :| 0 <= i < |want| && EqualFold(want[i], a);
    assert want[i] in want;
  }

  lemma ExactlyCovered(want: seq<string>, a: string)
    requires a in want
    ensures Covered(want, a)
  {
    var i :| 0 <= i < |want| && want[i] == a;
  }

  /** Where an attribute of members is dropped, the naming attribute is none of them. */
  lemma NamingIsNoMember(cfg: Config, a: string)
    requires a in MemberAttributes(cfg) && !Covered(WantOf(cfg), a)
    ensures cfg.groupAttribute !in MemberAttributes(cfg)
  {
    hide Covered, Wanted, WantFrom;
    NamingCovered(cfg);
    var first, more := [cfg.groupAttribute], MemberAttributes(cfg) + cfg.groupAttributes;
    if a in WantOf(cfg) {
      ExactlyCovered(WantOf(cfg), a);
    } else if cfg.memberAttribute == "" {
      var k := if a == "memberUid" then 0 else 1;
      assert more[k] == a;
      DroppedIsWanted(first, more, k);
      WantedLength(WantFrom(first, more[..k]), a);
      WantKeeps(first, more[..k]);
      assert k == 1 ==> more[..1] == ["memberUid"];
      assert |"memberUid"| == 9 && |"member"| == 6;
    }
  }

  lemma BareHasNobody(cfg: Config)
    requires cfg.groupAttribute !in MemberAttributes(cfg)
    ensures ValuesIn(Bare(cfg).attributes, MemberAttributes(cfg)) == []
  {
    var attrs, all := Bare(cfg).attributes, MemberAttributes(cfg);
    assert attrs[1..] == [];
    assert FirstValues(attrs, all[0]) == [];
    var one := [all[0]];
    assert one[..0] == [] && ValuesIn(attrs, one) == [];
    if |all| == 2 {
      assert FirstValues(attrs, all[1]) == [];
      assert all[..1] == one;
    } else {
      assert all == one;
    }
  }

  lemma FullHasOne(cfg: Config, a: string)
    requires a in MemberAttributes(cfg) && cfg.groupAttribute !in MemberAttributes(cfg)
    ensures ValuesIn(Full(cfg, a).attributes, MemberAttributes(cfg)) == [(a, "x")]
  {
    var attrs, all := Full(cfg, a).attributes, MemberAttributes(cfg);
    assert attrs[1..] == [Attribute(a, ["x"])] && attrs[1..][1..] == [];
    forall m | m in all ensures FirstValues(attrs, m) == if m == a then ["x"] else [] {
      assert FirstValues(attrs[1..], m) == if m == a then ["x"] else [];
    }
    hide FirstValues;
    var one := [all[0]];
    assert one[..0] == [] && ValuesIn(attrs, one) == if all[0] == a then [(a, "x")] else [];
    if |all| == 2 {
      assert all[..1] == one && all[0] != all[1];
    } else {
      assert all == one;
    }
  }

  const NO_PEOPLE: Result<seq<Entry>> := Err(Broken(0))

  /** Either the value is a DN and the search for the people fails, or it names somebody. */
  lemma OneIsHeard(cfg: Config, a: string)
    ensures MembersAmong(cfg, NO_PEOPLE, [(a, "x")]) != Ok([])
    ensures MembersAmong(cfg, NO_PEOPLE, []) == Ok([])
  {
    hide MemberDn;
    var occs := [(a, "x")];
    assert occs[..0] == [] && occs[0] == (a, "x");
    if MemberDn(cfg, a, "x").None? {
      assert Heard(cfg, [], occs) == ["x"];
      assert "x" in Dedup(["x"]);
    }
  }

  lemma MembersTell(cfg: Config, a: string) returns (bulk: Result<map<string, GroupData>>)
    requires a in MemberAttributes(cfg) && !Covered(WantOf(cfg), a)
    ensures Disagrees(cfg, OneGroup(cfg, a, NO_PEOPLE), bulk, "g")
  {
    hide WantOf, Covered, CopiedFrom, MembersAmong, Occurrences, ValuesIn, ReadOf, Found, FiledAsFound, AgreesAt;
    hide AllNames, Full, Bare, ToLower, Answers, IsNamed, AttributesOf, ClassesOf;
    var dir := OneGroup(cfg, a, NO_PEOPLE);
    FullIsNamed(cfg, a, NO_PEOPLE);
    FullIsFiled(cfg, a, NO_PEOPLE);
    BareIsRead(cfg, a, NO_PEOPLE);
    NamingIsNoMember(cfg, a);
    BareHasNobody(cfg);
    FullHasOne(cfg, a);
    OccurrencesOf(Full(cfg, a), MemberAttributes(cfg));
    OccurrencesOf(Bare(cfg), MemberAttributes(cfg));
    OneIsHeard(cfg, a);
    bulk := Ok(map["g" := DataOf(cfg, dir, ToLower("g")).value]);
    assert forall n :: n in ["g"] <==> n == "g";
    MembersApart(AsSource("", Ok([]), cfg, dir, bulk), "g");
  }

  // ----- The condition -----

  /** Under a configuration, a bulk read agrees wherever the client files what the directory finds. */
  ghost predicate Serves(cfg: Config) {
    forall dir, bulk, group :: ReadWell(cfg, dir, bulk, group) ==>
      AgreesAt(AsSource("", Ok([]), cfg, dir, bulk), group)
  }

  /** That is so of exactly the configurations in which every attribute dropped comes with another. */
  lemma CoverageExact(cfg: Config)
    ensures AllCovered(cfg) <==> Serves(cfg)
  {
    hide Covered, WantOf, AgreesAt, ReadWell, AllCovered;
    if AllCovered(cfg) {
      forall dir, bulk, group | ReadWell(cfg, dir, bulk, group)
        ensures AgreesAt(AsSource("", Ok([]), cfg, dir, bulk), group)
      {
        ServedThere(cfg, dir, bulk, group);
      }
    } else {
      var a := Dropped(cfg);
      if a in cfg.groupAttributes {
        var bulk := CopyTells(cfg, a);
        assert !Serves(cfg);
      } else {
        var bulk := MembersTell(cfg, a);
        assert !Serves(cfg);
      }
    }
  }

  lemma Dropped(cfg: Config) returns (a: string)
    requires !AllCovered(cfg)
    ensures (a in MemberAttributes(cfg) || a in cfg.groupAttributes) && !Covered(WantOf(cfg), a)
  {
    hide Covered, WantOf;
    a :| a in MemberAttributes(cfg) + cfg.groupAttributes && !Covered(WantOf(cfg), a);
  }

  lemma ServedThere(cfg: Config, dir: Directory, bulk: Result<map<string, GroupData>>, group: string)
    requires AllCovered(cfg) && ReadWell(cfg, dir, bulk, group)
    ensures AgreesAt(AsSource("", Ok([]), cfg, dir, bulk), group)
  {
    hide AllCovered, IsBulkRead, FiledAsFound, AgreesAt;
    BulkReadAgrees("", Ok([]), cfg, dir, bulk, group);
  }

  // ----- A configuration that it does not serve -----

  const LONG_S := "\U{17F}tuff"

  const MIXED := RawConfig.Config([], ["stuff"], "uid", "", "cn", LONG_S, [])

  /** The long s is a case of s to strings.EqualFold, and not to strings.ToLower; nothing else is known of the name. */
  ghost predicate LongSFolds() {
    SameOrbit('\U{17F}', 's') && UNICODE_LOWER('\U{17F}') == '\U{17F}' && "stuff" !in RESERVED
  }

  lemma MixedTypes()
    requires LongSFolds()
    ensures AttrType("stuff") == "stuff" && AttrType("cn") == "cn" && AttrType(LONG_S) == LONG_S
  {
    SplitOfPlain("stuff");
    SplitOfPlain("cn");
    SplitOfPlain(LONG_S);
    assert ToLower("stuff") == "stuff";
    assert ToLower("cn") == "cn";
    assert ToLower(LONG_S) == LONG_S;
  }

  lemma StuffAccepted()
    requires "stuff" !in RESERVED
    ensures Accepts("stuff")
  {
    SplitOfPlain("stuff");
    assert ToLower("stuff") == "stuff";
    hide ToLower;
    assert IsOption("stuff") && IsAlpha("stuff"[0]);
    forall i | 0 <= i < |SECRET_FRAGMENTS| ensures !Contains("stuff", SECRET_FRAGMENTS[i]) {
      FragmentIs(i);
      DoesNotContain(SECRET_FRAGMENTS[i]);
    }
  }

  lemma FragmentIs(i: nat)
    requires i < |SECRET_FRAGMENTS|
    ensures |SECRET_FRAGMENTS[i]| >= 3
    ensures SECRET_FRAGMENTS[i][0] !in {'t', 'u', 'f'}
    ensures SECRET_FRAGMENTS[i][0] == 's' ==> |SECRET_FRAGMENTS[i]| > 5
  {}

  lemma DoesNotContain(fragment: string)
    requires |fragment| >= 3 && fragment[0] !in {'t', 'u', 'f'} && (fragment[0] == 's' ==> |fragment| > 5)
    ensures !Contains("stuff", fragment)
  {
    assert "stuff"[1..] == "tuff" && "tuff"[1..] == "uff" && "uff"[1..] == "ff" && "ff"[1..] == "f" && "f"[1..] == "";
    assert !Contains("", fragment);
    assert !Contains("f", fragment);
    assert !Contains("ff", fragment);
    assert !Contains("uff", fragment);
    assert !Contains("tuff", fragment);
  }

  /** Such a configuration is accepted. */
  lemma MixedAccepted()
    requires LongSFolds()
    ensures ConfigRefusal(MIXED).None?
  {
    hide Accepts, AttrType;
    StuffAccepted();
    MixedTypes();
    var own := [LONG_S, "cn"];
    assert "stuff"[0] != LONG_S[0];
    assert !TakenBy("stuff", own);
    assert ["stuff"][1..] == [];
    assert CopyRefusal(["stuff"], own).None?;
    assert CopyRefusal([], [""]).None?;
  }

  lemma StuffFolds()
    requires LongSFolds()
    ensures EqualFold(LONG_S, "stuff")
  {
    SameAsItself("stuff");
    assert forall i :: 0 <= i < 5 ==> SameOrbit("stuff"[i], "stuff"[i]);
    assert forall i :: 1 <= i < 5 ==> LONG_S[i] == "stuff"[i];
    assert LONG_S[0] == '\U{17F}';
  }

  lemma MixedDrops(cfg: Config)
    requires LongSFolds() && cfg == MIXED
    ensures WantOf(cfg) == ["cn", LONG_S] && !Covered(WantOf(cfg), "stuff")
  {
    hide EqualFold, SameDescription, LONG_S;
    var first, more, two := ["cn"], [LONG_S] + ["stuff"], ["cn", LONG_S];
    assert more[..1] == [LONG_S] && more[..1][..0] == [];
    StuffFolds();
    OtherLength(LONG_S);
    assert !Wanted(["cn"], LONG_S);
    assert WantFrom(first, more[..1]) == two;
    assert two[1] == LONG_S && Wanted(two, "stuff");
    OtherType("stuff");
    LongSIsNot();
  }

  lemma OtherLength(name: string)
    requires |name| != 2
    ensures !EqualFold("cn", name)
  {}

  lemma LongSIsNot()
    ensures |LONG_S| == 5 && LONG_S != "stuff" && !IsAscii(LONG_S)
  {
    assert LONG_S[0] as int == 0x17F;
    assert "stuff"[0] == 's';
  }

  /** The configuration is accepted; the group has the attribute, asked about by itself; read in bulk it has none. */
  lemma LongSDiffers(cfg: Config) returns (dir: Directory, bulk: Result<map<string, GroupData>>)
    requires LongSFolds() && cfg == MIXED
    ensures Disagrees(cfg, dir, bulk, "g")
    ensures AttributesOf(cfg, dir, "g").Ok? && "g" in bulk.value
    ensures "x" in ValuesUnder(AttributesOf(cfg, dir, "g").value, Canonical("stuff"))
    ensures "x" !in ValuesUnder(bulk.value["g"].attributes, Canonical("stuff"))
  {
    hide Canonical, WantOf, Covered, AttributesOf, Disagrees, CopiedFrom, Full, Bare, ValuesUnder;
    MixedDrops(cfg);
    dir := OneGroup(cfg, "stuff", Ok([]));
    bulk := CopyTells(cfg, "stuff");
    CopyLost(cfg, "stuff");
  }
}
