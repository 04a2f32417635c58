/** Sources of people and groups, and the questions a Set asks of one: source.go, groupreader.go. */
module Sources {
  import opened Basics
  import opened Ordering
  import opened Faults
  import opened AttributeLists

  /** One person. Credentials are left out; `origin` is written once, by the Set that hands the person out. */
  class Identity {
    const name: string
    var origin: string

    constructor (name: string, origin: string)
      ensures this.name == name && this.origin == origin
    {
      this.name := name;
      this.origin := origin;
    }
  }

  datatype GroupData = GroupData(members: seq<string>, attributes: Attrs, classes: seq<string>)

  /** A source, as the answers it gives while its data stands still. The optional interfaces are options. */
  datatype Source = Source(
    describe: string,
    people: Result<seq<Identity>>,
    members: string -> Result<seq<string>>,
    attributes: Option<string -> Result<Attrs>>,     // GroupAttributer
    classes: Option<string -> Result<seq<string>>>,  // GroupObjectClasser
    names: Option<Result<seq<string>>>,              // GroupLister
    bulk: Option<Result<map<string, GroupData>>>)    // GroupReader
  {
    /** GroupAttributes, or Members to learn whether the group is there. */
    function AskAttributes(group: string): Result<Attrs> {
      match attributes
      case Some(ask) => ask(group)
      case None => (match members(group) case Ok(_) => Ok([]) case Err(e) => Err(e))
    }

    function AskClasses(group: string): Result<seq<string>> {
      match classes
      case Some(ask) => ask(group)
      case None => (match members(group) case Ok(_) => Ok([]) case Err(e) => Err(e))
    }
  }

  // ----- How answers are put together -----

  /** Every successful answer, one after the other. */
  function Gained<T>(rs: seq<Result<seq<T>>>): seq<T> {
    if rs == [] then [] else
      Gained(rs[..|rs| - 1]) + (match rs[|rs| - 1] case Ok(v) => v case Err(_) => [])
  }

  /** The first answer that is an error other than "no such group". */
  function FirstFailure<T>(rs: seq<Result<T>>): Option<Fault> {
    if rs == [] then None else
      var before := FirstFailure(rs[..|rs| - 1]);
      if before.Some? then before
      else match rs[|rs| - 1]
           case Ok(_) => None
           case Err(e) => if e == NoSuchGroup then None else Some(e)
  }

  /** Every source lacks the group: also of no sources at all. */
  predicate AllMissing<T>(rs: seq<Result<T>>) {
    forall i :: 0 <= i < |rs| ==> rs[i].Err? && rs[i].error == NoSuchGroup
  }

  function MergeMembers(rs: seq<Result<seq<string>>>): Result<seq<string>> {
    if Gained(rs) != [] then Ok(Dedup(Gained(rs)))
    else match FirstFailure(rs)
         case Some(e) => Err(e)
         case None => if AllMissing(rs) then Err(NoSuchGroup) else Ok([])
  }

  /** The attributes of every source that has the group, the first to give one owning it. */
  ghost function UnderAll(rs: seq<Result<Attrs>>): (l: Attrs) {
    if rs == [] then [] else
      var before := UnderAll(rs[..|rs| - 1]);
      match rs[|rs| - 1]
      case Ok(l) =>
        UnderKeys(before, l);
        UnderOf(before, l)
      case Err(_) => before
  }

  ghost function MergeAttributes(rs: seq<Result<Attrs>>): Result<Attrs> {
    match FirstFailure(rs)
    case Some(e) => Err(e)
    case None => if AllMissing(rs) then Err(NoSuchGroup) else Ok(UnderAll(rs))
  }

  predicate Decisive(r: Result<seq<string>>) {
    match r
    case Ok(list) => list != []
    case Err(e) => e != NoSuchGroup
  }

  /** The first source that declares classes, or fails, decides whole. */
  function FirstDecisive(rs: seq<Result<seq<string>>>): Option<Result<seq<string>>> {
    if rs == [] then None else
      var before := FirstDecisive(rs[..|rs| - 1]);
      if before.Some? then before
      else if Decisive(rs[|rs| - 1]) then Some(rs[|rs| - 1]) else None
  }

  function MergeClasses(rs: seq<Result<seq<string>>>): Result<seq<string>> {
    match FirstDecisive(rs)
    case Some(r) => r
    case None => if AllMissing(rs) then Err(NoSuchGroup) else Ok([])
  }

  /** The answers of the sources that can list. */
  function Listed(rs: seq<Option<Result<seq<string>>>>): seq<Result<seq<string>>> {
    if rs == [] then [] else
      Listed(rs[..|rs| - 1]) + (match rs[|rs| - 1] case Some(r) => [r] case None => [])
  }

  function FirstError<T>(rs: seq<Result<T>>): Option<Fault> {
    if rs == [] then None else
      var before := FirstError(rs[..|rs| - 1]);
      if before.Some? then before
      else match rs[|rs| - 1] case Ok(_) => None case Err(e) => Some(e)
  }

  function MergeNames(rs: seq<Option<Result<seq<string>>>>): Result<seq<string>> {
    var listed := Listed(rs);
    if Gained(listed) == [] && FirstError(listed).Some? then Err(FirstError(listed).value)
    else Ok(SortedSet(StringLe, Gained(listed)))
  }

  function Names(ids: seq<Identity>): seq<string> {
    Map((id: Identity) => id.name, ids)
  }

  /** Two entries under one name in one answer, or no answer. */
  ghost function Trouble(r: Result<seq<Identity>>): Option<Fault> {
    match r
    case Err(e) => Some(e)
    case Ok(ids) => if NoRepeats(Names(ids)) then None else Some(Ambiguous)
  }

  ghost function FirstTrouble(rs: seq<Result<seq<Identity>>>): Option<Fault> {
    if rs == [] then None else
      var before := FirstTrouble(rs[..|rs| - 1]);
      if before.Some? then before else Trouble(rs[|rs| - 1])
  }

  /** `acc`, then the people of `ids` whose names nobody in front of them has. */
  function OwnersOnto(acc: seq<Identity>, ids: seq<Identity>): seq<Identity> {
    if ids == [] then acc else
      var r := OwnersOnto(acc, ids[..|ids| - 1]);
      if ids[|ids| - 1].name in Names(r) then r else r + [ids[|ids| - 1]]
  }

  ghost function MergePeople(rs: seq<Result<seq<Identity>>>): Result<seq<Identity>> {
    match FirstTrouble(rs)
    case Some(e) => Err(e)
    case None => Ok(OwnersOnto([], Gained(rs)))
  }
}
