/** The source held in memory: `Static` of source.go, and the frozen source, which is one. */
module StaticSource {
  import opened Basics
  import opened Ordering
  import opened Faults
  import opened AttributeLists
  import opened Sources
  import opened DirectorySet

  /** A group is one of this source's because it is in `groups`; the other two maps only describe those. */
  datatype Static = Static(
    name: string,
    people: seq<Identity>,
    groups: map<string, seq<string>>,
    groupAttrs: map<string, Attrs>,
    groupClasses: map<string, seq<string>>)
  {
    function Describe(): string {
      if name == "" then "a list held in memory" else name
    }

    function Members(group: string): Result<seq<string>> {
      if group in groups then Ok(groups[group]) else Err(NoSuchGroup)
    }

    function GroupAttributes(group: string): Result<Attrs> {
      if group !in groups then Err(NoSuchGroup)
      else Ok(if group in groupAttrs then groupAttrs[group] else [])
    }

    function GroupObjectClasses(group: string): Result<seq<string>> {
      if group !in groups then Err(NoSuchGroup)
      else Ok(if group in groupClasses then groupClasses[group] else [])
    }

    method GroupNames() returns (names: seq<string>)
      ensures Sorted(StringLe, names) && NoRepeats(names)
      ensures forall n :: n in names <==> n in groups
    {
      names := SortedKeys(groups);
    }

    ghost predicate IsSource(src: Source) {
      && src.describe == Describe() && src.people == Ok(people) && src.bulk == None
      && src.attributes.Some? && src.classes.Some? && src.names.Some? && src.names.value.Ok?
      && Sorted(StringLe, src.names.value.value) && NoRepeats(src.names.value.value)
      && (forall n :: n in src.names.value.value <==> n in groups)
      && forall g :: src.members(g) == Members(g) && src.AskAttributes(g) == GroupAttributes(g) &&
                     src.AskClasses(g) == GroupObjectClasses(g)
    }
  }

  /** The list as a source that a set can ask. */
  method Open(st: Static) returns (src: Source)
    ensures st.IsSource(src)
  {
    var names := st.GroupNames();
    src := Source(st.Describe(), Ok(st.people), g => st.Members(g), Some(g => st.GroupAttributes(g)),
                  Some(g => st.GroupObjectClasses(g)), Some(Ok(names)), None);
  }

  /** All three questions and the list agree on which groups there are, and describing a group makes it no group. */
  lemma KnowsItsGroups(st: Static, src: Source, group: string)
    requires st.IsSource(src)
    ensures src.members(group) == Err(NoSuchGroup) <==> group !in src.names.value.value
    ensures src.AskAttributes(group) == Err(NoSuchGroup) <==> group !in src.names.value.value
    ensures src.AskClasses(group) == Err(NoSuchGroup) <==> group !in src.names.value.value
    ensures src.names.value.value == SortedSet(StringLe, src.names.value.value)
  {
    var names := src.names.value.value;
    StringTotalOrder();
    SortedSetMeaning(StringLe, names);
    StrictUnique(StringLe, names, SortedSet(StringLe, names));
    assert src.members(group) == st.Members(group) && src.AskAttributes(group) == st.GroupAttributes(group);
    assert src.AskClasses(group) == st.GroupObjectClasses(group);
  }

  /** What was read in bulk, as a list held in memory. */
  function Held(describe: string, people: seq<Identity>, read: map<string, GroupData>): Static {
    Static(describe, people,
           map g | g in read :: read[g].members,
           map g | g in read :: read[g].attributes,
           map g | g in read :: read[g].classes)
  }

  /** Freezing a source turns its groups into a list held in memory. */
  lemma FrozenIsStatic(src: Source, read: map<string, GroupData>, out: Source)
    requires IsFrozen(src, read, out) && src.people.Ok? && src.describe != ""
    ensures Held(src.describe, src.people.value, read).IsSource(out)
  {
    var st := Held(src.describe, src.people.value, read);
    assert st.groups.Keys == read.Keys;
    forall g
      ensures out.members(g) == st.Members(g) && out.AskAttributes(g) == st.GroupAttributes(g)
      ensures out.AskClasses(g) == st.GroupObjectClasses(g)
    {
      assert g in st.groups <==> g in read;
    }
  }
}
