/** Where the code does share memory with its callers: the members of a group read in bulk, and those a frozen source
    answers with. */
module Sharing {
  import opened Faults
  import opened AttributeNames
  import opened AttributeStore

  type Groups = map<string, array<string>>

  /** Files one slice of members under every spelling of a group's name, as ReadGroups does. */
  method FileUnder(had: Groups, spellings: seq<string>, members: array<string>) returns (out: Groups)
    ensures out.Keys == had.Keys + set n | n in spellings
    ensures forall n :: n in out ==> out[n] == if n in spellings then members else had[n]
  {
    out := had;
    for i := 0 to |spellings|
      invariant out.Keys == had.Keys + set n | n in spellings[..i]
      invariant forall n :: n in out ==> out[n] == if n in spellings[..i] then members else had[n]
    {
      assert spellings[..i + 1] == spellings[..i] + [spellings[i]];
      out := out[spellings[i] := members];
    }
    assert spellings[..|spellings|] == spellings;
  }

  /** frozenSource.Members: the slice that was read, and no copy of it. */
  method FrozenMembers(groups: Groups, group: string) returns (r: Result<array<string>>)
    ensures r == if group in groups then Ok(groups[group]) else Err(NoSuchGroup)
  {
    return if group in groups then Ok(groups[group]) else Err(NoSuchGroup);
  }

  /** Static.Members: a clone. */
  method StaticMembers(groups: Groups, group: string) returns (r: Result<array<string>>)
    ensures r.Ok? <==> group in groups
    ensures r.Err? ==> r.error == NoSuchGroup
    ensures r.Ok? ==> fresh(r.value) && r.value[..] == groups[group][..]
  {
    if group !in groups {
      return Err(NoSuchGroup);
    }
    var c := Clone(Slice(groups[group], groups[group].Length));
    return Ok(c);
  }

  /** A write through the answer about one group, and what the frozen source answers about another before and after:
      the two differ if and only if both were answered with one array and the value written is not the one there. */
  method WriteThrough(groups: Groups, asked: string, other: string, at: nat, value: string)
    returns (before: seq<string>, after: seq<string>)
    requires asked in groups && other in groups && at < groups[asked].Length
    modifies groups[asked]
    ensures before == old(groups[other][..])
    ensures after == if groups[asked] == groups[other] then before[at := value] else before
    ensures before != after <==> groups[asked] == groups[other] && old(groups[asked][at]) != value
  {
    var seen := FrozenMembers(groups, other);
    before := seen.value[..];
    var got := FrozenMembers(groups, asked);
    got.value[at] := value;
    var again := FrozenMembers(groups, other);
    after := again.value[..];
    if groups[asked] == groups[other] {
      assert after == before[at := value];
      assert before[at] != value ==> before != after;
    }
  }

  /** Every spelling of a folded name, and the members filed under it. */
  datatype Filed = Filed(spellings: seq<string>, members: seq<string>)

  /** Spellings are filed under their lower case. */
  ghost predicate ByLowerCase(filed: map<string, Filed>) {
    forall k, n :: k in filed && n in filed[k].spellings ==> ToLower(n) == k
  }

  /** What has been filed, those of some folded names left aside: under every spelling, what is filed under its lower
      case; and two spellings in one array exactly when they have one lower case. */
  ghost predicate FiledSoFar(filed: map<string, Filed>, aside: set<string>, out: Groups)
    reads Arrays(out)
  {
    && (forall n :: n in out <==> ToLower(n) in filed && ToLower(n) !in aside && n in filed[ToLower(n)].spellings)
    && (forall n :: n in out ==> out[n][..] == filed[ToLower(n)].members)
    && forall m, n :: m in out && n in out ==> (out[m] == out[n] <==> ToLower(m) == ToLower(n))
  }

  ghost function Arrays(groups: Groups): set<array<string>> {
    set n | n in groups :: groups[n]
  }

  /** The end of ReadGroups: for each folded name a slice of its own, under every spelling. */
  method FileAll(filed: map<string, Filed>) returns (out: Groups)
    requires ByLowerCase(filed)
    ensures fresh(Arrays(out)) && FiledSoFar(filed, {}, out)
  {
    hide ToLower;
    out := map[];
    var left := filed.Keys;
    while left != {}
      invariant left <= filed.Keys && fresh(Arrays(out)) && FiledSoFar(filed, left, out)
      decreases left
    {
      var k :| k in left;
      out := FileOne(filed, left, k, out);
      left := left - {k};
    }
  }

  method ArrayOf(values: seq<string>) returns (a: array<string>)
    ensures fresh(a) && a[..] == values
  {
    a := new string[|values|];
    for i := 0 to |values|
      invariant a[..i] == values[..i]
    {
      a[i] := values[i];
    }
  }

  method FileOne(filed: map<string, Filed>, ghost left: set<string>, k: string, had: Groups) returns (out: Groups)
    requires ByLowerCase(filed) && k in left && left <= filed.Keys && FiledSoFar(filed, left, had)
    ensures FiledSoFar(filed, left - {k}, out)
    ensures fresh(Arrays(out) - Arrays(had))
  {
    hide ToLower;
    var members := ArrayOf(filed[k].members);
    out := FileUnder(had, filed[k].spellings, members);
  }

  /** So, of what was read in bulk, a write through the answer about one spelling shows in the answer about another if
      and only if they have one lower case and the value is new there. */
  method WriteThroughBulk(filed: map<string, Filed>, asked: string, other: string, at: nat, value: string)
    returns (differ: bool)
    requires ByLowerCase(filed)
    requires ToLower(asked) in filed && asked in filed[ToLower(asked)].spellings
    requires ToLower(other) in filed && other in filed[ToLower(other)].spellings
    requires at < |filed[ToLower(asked)].members|
    ensures differ <==> ToLower(asked) == ToLower(other) && filed[ToLower(asked)].members[at] != value
  {
    hide ToLower;
    var groups := FileAll(filed);
    assert groups[asked] in Arrays(groups);
    assert groups[asked][..] == filed[ToLower(asked)].members;
    var before, after := WriteThrough(groups, asked, other, at, value);
    return before != after;
  }

  /** What a list held in memory answers is: nothing written there changes what it answers next, for any group. */
  method StaticAnswersAreNot(groups: Groups, asked: string, other: string, at: nat, value: string)
    returns (after: Result<array<string>>)
    ensures after.Ok? <==> other in groups
    ensures after.Ok? ==> after.value[..] == old(groups[other][..])
  {
    var got := StaticMembers(groups, asked);
    if got.Ok? && at < got.value.Length {
      got.value[at] := value;
    }
    after := StaticMembers(groups, other);
  }
}
