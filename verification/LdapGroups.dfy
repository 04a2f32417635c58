/** Groups read from a directory, one at a time and all at once: ldapdir.go. The directory is its contents. */
module LdapGroups {
  import opened Basics
  import opened Ordering
  import opened Faults
  import opened Folding
  import opened DnKey
  import opened PeopleIndex
  import opened AttributeNames
  import opened AttributeLists
  import opened Sources
  import opened LdapCopied

  datatype Entry = Entry(dn: string, attributes: seq<Attribute>)

  ghost predicate Reflexive(f: (string, string) -> bool) {
    forall s :: f(s, s)
  }

  /** An equality rule: whether a value held matches the one asked for. Nothing is known of it but that a value
      matches itself; caseIgnoreMatch (section 4.2.11 of RFC 4517) is one. */
  type NameRule = f: (string, string) -> bool | Reflexive(f) witness (held: string, asked: string) => true

  /** What a selection must have: an attribute is returned under its own name and, asked for by a description, under
      every equivalent one. A description is ASCII (section 2.5 of RFC 4512), and a text that is none is ignored
      (section 4.5.1.8 of RFC 4511). */
  ghost predicate SelectsLikeLdap(f: (string, string) -> bool) {
    && (forall n :: f(n, n))
    && (forall w, n :: IsAscii(w) && SameDescription(w, n) ==> f(w, n))
  }

  /** Which attributes a search returns when one is asked for: those, and perhaps more, such as subtypes. */
  type Selection = f: (string, string) -> bool | SelectsLikeLdap(f) witness (w: string, n: string) => true

  /** What the two searches find, the entries the group filter and the people filter match, in order; the equality
      rule of the attribute that names groups; and how attributes are selected. */
  datatype Directory =
    Directory(groups: Result<seq<Entry>>, people: Result<seq<Entry>>, rule: NameRule, selects: Selection)

  function Answer(sel: Selection, e: Entry, want: seq<string>): Entry {
    Entry(e.dn, Filter((a: Attribute) => exists i :: 0 <= i < |want| && sel(want[i], a.name), e.attributes))
  }

  function Search(sel: Selection, entries: seq<Entry>, want: seq<string>): seq<Entry> {
    Map((e: Entry) => Answer(sel, e, want), entries)
  }

  /** GetAttributeValues: the values of the first attribute spelled exactly so. */
  function FirstValues(attrs: seq<Attribute>, name: string): seq<string> {
    if attrs == [] then []
    else if attrs[0].name == name then attrs[0].values
    else FirstValues(attrs[1..], name)
  }

  function NamesOf(cfg: Config, e: Entry): seq<string> {
    FirstValues(e.attributes, cfg.groupAttribute)
  }

  /** Whether the directory finds the entry under this name: by its own rule, over every attribute that the naming
      attribute selects, however it is spelled. */
  predicate Answers(cfg: Config, dir: Directory, e: Entry, group: string) {
    exists i, j :: 0 <= i < |e.attributes| && 0 <= j < |e.attributes[i].values| &&
                   dir.selects(cfg.groupAttribute, e.attributes[i].name) && dir.rule(e.attributes[i].values[j], group)
  }

  function Found(cfg: Config, dir: Directory, entries: seq<Entry>, group: string): seq<Entry> {
    Filter((e: Entry) => Answers(cfg, dir, e, group), entries)
  }

  /** Whether the client files the entry under this folded name: by lower case, over the values it reads. */
  predicate IsNamed(cfg: Config, e: Entry, folded: string) {
    exists i :: 0 <= i < |NamesOf(cfg, e)| && ToLower(NamesOf(cfg, e)[i]) == folded
  }

  function Filed(cfg: Config, entries: seq<Entry>, folded: string): seq<Entry> {
    Filter((e: Entry) => IsNamed(cfg, e, folded), entries)
  }

  function MemberAttributes(cfg: Config): seq<string> {
    if cfg.memberAttribute != "" then [cfg.memberAttribute] else ["memberUid", "member"]
  }

  /** Whether a member value is a DN, and which: one that names nobody when it does not parse but must. */
  ghost function MemberDn(cfg: Config, attr: string, value: string): Option<Dn> {
    var dnSyntax := EqualFold(attr, "member") || EqualFold(attr, "uniqueMember");
    if !dnSyntax && cfg.memberAttribute == "" then None
    else
      var dn := PARSE_DN(value);
      if dn.None? || dn.value == [] then if dnSyntax then Some([]) else None
      else dn
  }

  /** A person as the people search gives them: the naming attribute's first value, or none. */
  function PersonOf(cfg: Config, e: Entry): Person {
    var names := FirstValues(e.attributes, cfg.userAttribute);
    Person(e.dn, if names == [] then "" else names[0])
  }

  function PeopleIn(cfg: Config, entries: seq<Entry>): seq<Person> {
    Map((e: Entry) => PersonOf(cfg, e), entries)
  }

  /** Whom a member value names: itself, or the imported person whose DN it is, found by linear search. */
  ghost function Means(cfg: Config, people: seq<Person>, attr: string, value: string): Option<string> {
    match MemberDn(cfg, attr, value)
    case None => Some(value)
    case Some(dn) => LinearSearch(people, dn)
  }

  /** Every member value of an entry, with the attribute it comes from, in the order they are read. */
  function ValuesIn(attrs: seq<Attribute>, memberAttrs: seq<string>): seq<(string, string)> {
    if memberAttrs == [] then [] else
      var a := memberAttrs[|memberAttrs| - 1];
      ValuesIn(attrs, memberAttrs[..|memberAttrs| - 1]) + Map((v: string) => (a, v), FirstValues(attrs, a))
  }

  function Occurrences(entries: seq<Entry>, memberAttrs: seq<string>): seq<(string, string)> {
    if entries == [] then [] else
      Occurrences(entries[..|entries| - 1], memberAttrs) + ValuesIn(entries[|entries| - 1].attributes, memberAttrs)
  }

  ghost predicate HasDn(cfg: Config, occs: seq<(string, string)>) {
    exists i :: 0 <= i < |occs| && MemberDn(cfg, occs[i].0, occs[i].1).Some?
  }

  ghost function Heard(cfg: Config, people: seq<Person>, occs: seq<(string, string)>): seq<string> {
    if occs == [] then [] else
      var last := occs[|occs| - 1];
      Heard(cfg, people, occs[..|occs| - 1]) +
      (match Means(cfg, people, last.0, last.1) case Some(n) => [n] case None => [])
  }

  /** The people imported, when their search succeeded. */
  function Known(cfg: Config, people: Result<seq<Entry>>): seq<Person> {
    if people.Ok? then PeopleIn(cfg, people.value) else []
  }

  /** The members some entries give: everybody named, once. The people are searched for only on account of a DN. */
  ghost function MembersAmong(cfg: Config, people: Result<seq<Entry>>,
        occs: seq<(string, string)>): Result<seq<string>> {
    if people.Err? && HasDn(cfg, occs) then Err(people.error)
    else Ok(Dedup(Heard(cfg, Known(cfg, people), occs)))
  }

  function MergedAttributes(entries: seq<Entry>): seq<Attribute> {
    Flatten(Map((e: Entry) => e.attributes, entries))
  }

  function AllNames(cfg: Config, entries: seq<Entry>): seq<string> {
    Flatten(Map((e: Entry) => NamesOf(cfg, e), entries))
  }

  // ----- What each question answers -----

  ghost function FoundOf(cfg: Config, dir: Directory, group: string): Result<seq<Entry>> {
    match dir.groups
    case Err(e) => Err(e)
    case Ok(all) =>
      var found := Found(cfg, dir, all, group);
      if found == [] then Err(NoSuchGroup) else Ok(found)
  }

  ghost function MembersOf(cfg: Config, dir: Directory, group: string): Result<seq<string>> {
    match FoundOf(cfg, dir, group)
    case Err(e) => Err(e)
    case Ok(found) => MembersAmong(cfg, dir.people, Occurrences(found, MemberAttributes(cfg)))
  }

  ghost function CopiedFrom(cfg: Config, attrs: seq<Attribute>): (l: Attrs) {
    AddAllWellFormed([], CopyList(attrs, cfg.groupAttributes));
    AddAll([], CopyList(attrs, cfg.groupAttributes))
  }

  ghost function AttributesOf(cfg: Config, dir: Directory, group: string): Result<Attrs> {
    match FoundOf(cfg, dir, group)
    case Err(e) => Err(e)
    case Ok(found) => Ok(CopiedFrom(cfg, MergedAttributes(found)))
  }

  ghost function ClassesOf(cfg: Config, dir: Directory, group: string): Result<seq<string>> {
    match FoundOf(cfg, dir, group)
    case Err(e) => Err(e)
    case Ok(_) => Ok(cfg.groupClasses)
  }

  ghost function NamesListed(cfg: Config, dir: Directory): Result<seq<string>> {
    match dir.groups
    case Err(e) => Err(e)
    case Ok(all) => Ok(SortedSet(StringLe, AllNames(cfg, all)))
  }

  /** The members, attributes and classes that some entries of one group come to. */
  ghost function DataFrom(cfg: Config, dir: Directory, entries: seq<Entry>): Result<GroupData> {
    match MembersAmong(cfg, dir.people, Occurrences(entries, MemberAttributes(cfg)))
    case Err(e) => Err(e)
    case Ok(members) => Ok(GroupData(members, CopiedFrom(cfg, MergedAttributes(entries)), cfg.groupClasses))
  }

  ghost predicate Wanted(want: seq<string>, name: string) {
    exists i :: 0 <= i < |want| && EqualFold(want[i], name)
  }

  /** Each attribute is asked for, unless one asked for already is the same, case aside. */
  ghost function WantFrom(want: seq<string>, more: seq<string>): seq<string> {
    if more == [] then want else
      var asked := WantFrom(want, more[..|more| - 1]);
      if Wanted(asked, more[|more| - 1]) then asked else asked + [more[|more| - 1]]
  }

  /** What the one search asks for. */
  ghost function WantOf(cfg: Config): seq<string> {
    WantFrom([cfg.groupAttribute], MemberAttributes(cfg) + cfg.groupAttributes)
  }

  /** What that search returns of the entries filed under a folded name. */
  ghost function ReadOf(cfg: Config, dir: Directory, folded: string): seq<Entry>
    requires dir.groups.Ok?
  {
    Search(dir.selects, Filed(cfg, dir.groups.value, folded), WantOf(cfg))
  }

  /** What is read of them comes to this. */
  ghost function DataOf(cfg: Config, dir: Directory, folded: string): Result<GroupData>
    requires dir.groups.Ok?
  {
    DataFrom(cfg, dir, ReadOf(cfg, dir, folded))
  }

  /** The bulk read: one entry for each name listed, holding what is filed under its lower case; or the failure of
      the people search, exactly when one of those needs it. */
  ghost predicate IsBulkRead(cfg: Config, dir: Directory, r: Result<map<string, GroupData>>) {
    match dir.groups
    case Err(e) => r == Err(e)
    case Ok(all) =>
      if exists n :: n in AllNames(cfg, all) && DataOf(cfg, dir, ToLower(n)).Err? then
        dir.people.Err? && r == Err(dir.people.error)
      else
        && r.Ok?
        && (forall n :: n in r.value <==> n in AllNames(cfg, all))
        && forall n :: n in r.value ==> DataOf(cfg, dir, ToLower(n)) == Ok(r.value[n])
  }

  ghost function AsSource(
      describe: string, ids: Result<seq<Identity>>, cfg: Config, dir: Directory,
          bulk: Result<map<string, GroupData>>): Source {
    Source(describe, ids, g => MembersOf(cfg, dir, g),
           Some(g => AttributesOf(cfg, dir, g)), Some(g => ClassesOf(cfg, dir, g)),
           Some(NamesListed(cfg, dir)), Some(bulk))
  }

  // ----- The promise of GroupReader, and where it stops -----

  lemma {:induction false} InAllNames(cfg: Config, entries: seq<Entry>, name: string)
    ensures name in AllNames(cfg, entries) <==> exists i :: 0 <= i < |entries| && name in NamesOf(cfg, entries[i])
  {
    var lists := Map((e: Entry) => NamesOf(cfg, e), entries);
    InFlatten(lists, name);
  }

  lemma {:induction false} InFlatten<T>(ss: seq<seq<T>>, x: T)
    ensures x in Flatten(ss) <==> exists i :: 0 <= i < |ss| && x in ss[i]
  {
    if ss != [] {
      InFlatten(ss[1..], x);
      if i :| 0 <= i < |ss| && x in ss[i] {
        assert i > 0 ==> ss[1..][i - 1] == ss[i];
      }
      if i :| 0 <= i < |ss[1..]| && x in ss[1..][i] {
        assert ss[i + 1] == ss[1..][i];
      }
    }
  }

  /** A listed name is one the client files, and one the directory finds. */
  lemma ListedIsFiled(cfg: Config, entries: seq<Entry>, name: string)
    requires name in AllNames(cfg, entries)
    ensures Filed(cfg, entries, ToLower(name)) != []
  {
    InAllNames(cfg, entries, name);
    var i :| 0 <= i < |entries| && name in NamesOf(cfg, entries[i]);
    var j :| 0 <= j < |NamesOf(cfg, entries[i])| && NamesOf(cfg, entries[i])[j] == name;
    assert IsNamed(cfg, entries[i], ToLower(name));
    assert entries[i] in Filed(cfg, entries, ToLower(name));
  }

  lemma ListedIsFound(cfg: Config, dir: Directory, entries: seq<Entry>, name: string)
    requires name in AllNames(cfg, entries)
    ensures Found(cfg, dir, entries, name) != []
  {
    hide NamesOf;
    InAllNames(cfg, entries, name);
    var i :| 0 <= i < |entries| && name in NamesOf(cfg, entries[i]);
    NameIsHeld(cfg, dir, entries[i], name);
    HeldAnswers(cfg, dir, entries[i], name, name);
    assert entries[i] in Found(cfg, dir, entries, name);
  }

  /** A name the entry holds, under whatever spelling of the naming attribute. */
  ghost predicate Holds(cfg: Config, dir: Directory, e: Entry, name: string) {
    exists i, j :: 0 <= i < |e.attributes| && 0 <= j < |e.attributes[i].values| &&
                   dir.selects(cfg.groupAttribute, e.attributes[i].name) && e.attributes[i].values[j] == name
  }

  lemma HeldAnswers(cfg: Config, dir: Directory, e: Entry, name: string, group: string)
    requires Holds(cfg, dir, e, name) && dir.rule(name, group)
    ensures Answers(cfg, dir, e, group)
  {
    var i, j :| 0 <= i < |e.attributes| && 0 <= j < |e.attributes[i].values| &&
                dir.selects(cfg.groupAttribute, e.attributes[i].name) && e.attributes[i].values[j] == name;
    assert dir.rule(e.attributes[i].values[j], group);
  }

  /** What the client reads of an entry's names, the entry holds. */
  lemma NameIsHeld(cfg: Config, dir: Directory, e: Entry, name: string)
    requires name in NamesOf(cfg, e)
    ensures Holds(cfg, dir, e, name)
  {
    hide SameDescription;
    var i := WhereRead(e.attributes, cfg.groupAttribute);
    assert dir.selects(cfg.groupAttribute, e.attributes[i].name);
    var j :| 0 <= j < |e.attributes[i].values| && e.attributes[i].values[j] == name;
  }

  lemma {:induction false} WhereRead(attrs: seq<Attribute>, name: string) returns (i: nat)
    requires FirstValues(attrs, name) != []
    ensures i < |attrs| && attrs[i].name == name && attrs[i].values == FirstValues(attrs, name)
  {
    if attrs[0].name == name {
      i := 0;
    } else {
      i := WhereRead(attrs[1..], name);
      i := i + 1;
    }
  }
}
