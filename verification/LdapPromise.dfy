/** When a bulk read of a directory answers as the directory does, group by group. */
module LdapPromise {
  import opened Basics
  import opened Ordering
  import opened Faults
  import opened AttributeNames
  import opened Sources
  import opened DirectorySet
  import opened LdapCopied
  import opened LdapGroups
  import opened LdapAnswers

  // ----- When a bulk read keeps the promise -----

  /** Of a listed group the client files just the entries that the directory finds; of another it finds none. */
  ghost predicate FiledAsFound(cfg: Config, dir: Directory, group: string)
    requires dir.groups.Ok?
  {
    var all := dir.groups.value;
    if group in AllNames(cfg, all) then
      forall i :: 0 <= i < |all| ==>
        (Answers(cfg, dir, all[i], group) <==> IsNamed(cfg, all[i], ToLower(group)))
    else
      forall i :: 0 <= i < |all| ==> !Answers(cfg, dir, all[i], group)
  }

  lemma {:induction false} FilterSame<T(!new)>(p: T -> bool, q: T -> bool, s: seq<T>)
    requires forall i :: 0 <= i < |s| ==> p(s[i]) == q(s[i])
    ensures Filter(p, s) == Filter(q, s)
  {
    if s != [] {
      FilterSame(p, q, s[..|s| - 1]);
    }
  }

  lemma SameEntries(cfg: Config, dir: Directory, group: string)
    requires dir.groups.Ok? && group in AllNames(cfg, dir.groups.value) && FiledAsFound(cfg, dir, group)
    ensures Found(cfg, dir, dir.groups.value, group) == Filed(cfg, dir.groups.value, ToLower(group)) != []
  {
    hide AllNames, Answers, IsNamed, ToLower;
    FilterSame((e: Entry) => Answers(cfg, dir, e, group), (e: Entry) => IsNamed(cfg, e, ToLower(group)),
               dir.groups.value);
    ListedIsFiled(cfg, dir.groups.value, group);
  }

  lemma NothingFound(cfg: Config, dir: Directory, group: string)
    requires dir.groups.Ok?
    ensures Found(cfg, dir, dir.groups.value, group) == [] <==>
            forall i :: 0 <= i < |dir.groups.value| ==> !Answers(cfg, dir, dir.groups.value[i], group)
  {
    hide Answers;
    var all, found := dir.groups.value, Found(cfg, dir, dir.groups.value, group);
    if i :| 0 <= i < |all| && Answers(cfg, dir, all[i], group) {
      assert all[i] in found;
    }
    if found != [] {
      assert found[0] in found;
      var i :| 0 <= i < |all| && all[i] == found[0];
    }
  }

  /** Where everything is asked for, what is read of the entries filed is what they hold. */
  lemma NothingLost(cfg: Config, dir: Directory, folded: string)
    requires dir.groups.Ok? && AllCovered(cfg)
    ensures DataOf(cfg, dir, folded) == DataFrom(cfg, dir, Filed(cfg, dir.groups.value, folded))
  {
    hide Filed, MembersAmong, Occurrences, CopyList, MergedAttributes, Search, WantOf, Covered;
    var filed := Filed(cfg, dir.groups.value, folded);
    OccurrencesAnswered(dir.selects, filed, WantOf(cfg), MemberAttributes(cfg));
    CopiedAnswered(cfg, dir.selects, filed, WantOf(cfg));
  }

  /** Where the entries filed are those found, and everything is asked for, the three questions answer what is read. */
  lemma AnswersOfFiled(cfg: Config, dir: Directory, group: string)
    requires dir.groups.Ok? && group in AllNames(cfg, dir.groups.value) && FiledAsFound(cfg, dir, group)
    requires AllCovered(cfg)
    ensures var data := DataOf(cfg, dir, ToLower(group));
            match data
            case Err(e) => MembersOf(cfg, dir, group) == Err(e)
            case Ok(d) => && MembersOf(cfg, dir, group) == Ok(d.members)
                          && AttributesOf(cfg, dir, group) == Ok(d.attributes)
                          && ClassesOf(cfg, dir, group) == Ok(d.classes)
  {
    hide Found, Filed, AllNames, FiledAsFound, MembersAmong, Occurrences, CopiedFrom, ToLower, DataOf, AllCovered;
    SameEntries(cfg, dir, group);
    NothingLost(cfg, dir, ToLower(group));
  }

  lemma ListsRead(
      describe: string, ids: Result<seq<Identity>>, cfg: Config, dir: Directory, bulk: Result<map<string, GroupData>>)
    requires IsBulkRead(cfg, dir, bulk) && dir.groups.Ok?
    ensures ListsWhatItReads(AsSource(describe, ids, cfg, dir, bulk))
  {
    hide AllNames, DataOf, MembersOf, AttributesOf, ClassesOf, ToLower, SortedSet;
    StringTotalOrder();
    SortedSetMeaning(StringLe, AllNames(cfg, dir.groups.value));
  }

  /** The bulk read lists what the source lists. At a name where the client files what the directory finds, and asks
      for everything, it agrees with the source; at a name not listed it agrees exactly where nothing is found. */
  lemma BulkReadAgrees(
      describe: string, ids: Result<seq<Identity>>, cfg: Config, dir: Directory, bulk: Result<map<string, GroupData>>,
      group: string)
    requires IsBulkRead(cfg, dir, bulk) && dir.groups.Ok?
    ensures var src := AsSource(describe, ids, cfg, dir, bulk);
            && ListsWhatItReads(src)
            && (AllCovered(cfg) && FiledAsFound(cfg, dir, group) ==> AgreesAt(src, group))
            && (bulk.Ok? && group !in AllNames(cfg, dir.groups.value) ==>
                  (AgreesAt(src, group) <==> FiledAsFound(cfg, dir, group)))
  {
    hide AllNames, FiledAsFound, DataOf, MembersOf, AttributesOf, ClassesOf, ToLower, AllCovered, ListsWhatItReads;
    var src := AsSource(describe, ids, cfg, dir, bulk);
    ListsRead(describe, ids, cfg, dir, bulk);
    assert src.AskAttributes(group) == AttributesOf(cfg, dir, group);
    assert src.AskClasses(group) == ClassesOf(cfg, dir, group);
    assert src.members(group) == MembersOf(cfg, dir, group);
    if group in AllNames(cfg, dir.groups.value) {
      if AllCovered(cfg) && FiledAsFound(cfg, dir, group) {
        AnswersOfFiled(cfg, dir, group);
      }
    } else {
      UnlistedAnswers(cfg, dir, group);
    }
  }

  /** A name not listed is missing, for all three questions, exactly when nothing answers to it. */
  lemma UnlistedAnswers(cfg: Config, dir: Directory, group: string)
    requires dir.groups.Ok? && group !in AllNames(cfg, dir.groups.value)
    ensures FiledAsFound(cfg, dir, group) ==>
              && MembersOf(cfg, dir, group) == Err(NoSuchGroup)
              && AttributesOf(cfg, dir, group) == Err(NoSuchGroup)
              && ClassesOf(cfg, dir, group) == Err(NoSuchGroup)
    ensures !FiledAsFound(cfg, dir, group) ==> ClassesOf(cfg, dir, group).Ok?
  {
    hide Found, AllNames, FiledAsFound, MembersAmong;
    UnlistedFound(cfg, dir, group);
    NothingFound(cfg, dir, group);
  }

  lemma UnlistedFound(cfg: Config, dir: Directory, group: string)
    requires dir.groups.Ok? && group !in AllNames(cfg, dir.groups.value)
    ensures FiledAsFound(cfg, dir, group) <==>
            forall i :: 0 <= i < |dir.groups.value| ==> !Answers(cfg, dir, dir.groups.value[i], group)
  {}

  /** Where the client files what the directory finds for every name listed, a bulk read fails exactly when one of
      the questions it stands for does. */
  lemma BulkReadFails(cfg: Config, dir: Directory, bulk: Result<map<string, GroupData>>)
    requires IsBulkRead(cfg, dir, bulk) && dir.groups.Ok?
    requires AllCovered(cfg)
    requires forall n :: n in AllNames(cfg, dir.groups.value) ==> FiledAsFound(cfg, dir, n)
    ensures bulk.Err? <==> exists n :: n in AllNames(cfg, dir.groups.value) && MembersOf(cfg, dir, n).Err?
  {
    hide AllNames, FiledAsFound, DataOf, MembersOf, AttributesOf, ClassesOf, ToLower, AllCovered;
    forall n | n in AllNames(cfg, dir.groups.value)
      ensures MembersOf(cfg, dir, n).Err? <==> DataOf(cfg, dir, ToLower(n)).Err?
    {
      AnswersOfFiled(cfg, dir, n);
    }
  }

  /** Every name an entry holds is among those the client reads: the directory spells the attribute as configured. */
  ghost predicate ReadAsHeld(cfg: Config, dir: Directory, entries: seq<Entry>) {
    forall i, name :: 0 <= i < |entries| && Holds(cfg, dir, entries[i], name) ==> name in NamesOf(cfg, entries[i])
  }

  /** With the attribute spelled as configured, and a rule that is equality of lower case on the names held, the
      client files what is found of exactly the groups listed and of those nothing answers to in any case. */
  lemma FoldingRule(cfg: Config, dir: Directory, group: string)
    requires dir.groups.Ok? && ReadAsHeld(cfg, dir, dir.groups.value)
    requires forall v :: v in AllNames(cfg, dir.groups.value) ==> (dir.rule(v, group) <==> ToLower(v) == ToLower(group))
    ensures FiledAsFound(cfg, dir, group) <==>
            group in AllNames(cfg, dir.groups.value) || Filed(cfg, dir.groups.value, ToLower(group)) == []
  {
    hide AllNames, Answers, IsNamed, ToLower, Filed;
    var all := dir.groups.value;
    forall i | 0 <= i < |all|
      ensures Answers(cfg, dir, all[i], group) <==> IsNamed(cfg, all[i], ToLower(group))
    {
      FoldingEntry(cfg, dir, i, group);
    }
    NothingFiled(cfg, all, ToLower(group));
  }

  lemma NothingFiled(cfg: Config, all: seq<Entry>, folded: string)
    ensures Filed(cfg, all, folded) == [] <==> forall i :: 0 <= i < |all| ==> !IsNamed(cfg, all[i], folded)
  {
    hide IsNamed;
    var filed := Filed(cfg, all, folded);
    if i :| 0 <= i < |all| && IsNamed(cfg, all[i], folded) {
      assert all[i] in filed;
    }
    if filed != [] {
      assert filed[0] in filed;
      var i :| 0 <= i < |all| && all[i] == filed[0];
    }
  }

  lemma FoldingEntry(cfg: Config, dir: Directory, k: nat, group: string)
    requires dir.groups.Ok? && ReadAsHeld(cfg, dir, dir.groups.value) && k < |dir.groups.value|
    requires forall v :: v in AllNames(cfg, dir.groups.value) ==> (dir.rule(v, group) <==> ToLower(v) == ToLower(group))
    ensures Answers(cfg, dir, dir.groups.value[k], group) <==> IsNamed(cfg, dir.groups.value[k], ToLower(group))
  {
    hide AllNames, NamesOf, ToLower;
    var e := dir.groups.value[k];
    forall v | v in NamesOf(cfg, e) ensures v in AllNames(cfg, dir.groups.value) {
      InAllNames(cfg, dir.groups.value, v);
    }
    if Answers(cfg, dir, e, group) {
      var i, j :| 0 <= i < |e.attributes| && 0 <= j < |e.attributes[i].values| &&
                  dir.selects(cfg.groupAttribute, e.attributes[i].name) && dir.rule(e.attributes[i].values[j], group);
      var v := e.attributes[i].values[j];
      assert Holds(cfg, dir, e, v);
      var m :| 0 <= m < |NamesOf(cfg, e)| && NamesOf(cfg, e)[m] == v;
      assert ToLower(NamesOf(cfg, e)[m]) == ToLower(group);
    }
    if IsNamed(cfg, e, ToLower(group)) {
      var m :| 0 <= m < |NamesOf(cfg, e)| && ToLower(NamesOf(cfg, e)[m]) == ToLower(group);
      NameIsHeld(cfg, dir, e, NamesOf(cfg, e)[m]);
      HeldAnswers(cfg, dir, e, NamesOf(cfg, e)[m], group);
    }
  }

  /** There is only one such answer, so it cannot depend on the order in which a map of spellings is walked. */
  lemma BulkReadUnique(cfg: Config, dir: Directory, r: Result<map<string, GroupData>>,
        s: Result<map<string, GroupData>>)
    requires IsBulkRead(cfg, dir, r) && IsBulkRead(cfg, dir, s)
    ensures r == s
  {
    hide AllNames, DataOf, ToLower;
    if dir.groups.Ok? && r.Ok? {
      assert s.Ok? && r.value.Keys == s.value.Keys;
      forall n | n in r.value ensures r.value[n] == s.value[n] {
        assert DataOf(cfg, dir, ToLower(n)) == Ok(r.value[n]) == Ok(s.value[n]);
      }
      assert r.value == s.value;
    }
  }
}
