/** The two bulk readers and the set that freezes them, put together. */
module WholeDirectory {
  import opened Basics
  import opened Faults
  import opened Sources
  import opened Nesting
  import opened DirectorySet
  import SqlDir
  import LdapCopied
  import LdapGroups
  import LdapAnswers
  import LdapPromise

  /** A source of the set: a database or a directory with what its whole-directory questions returned, or any source
      that does not read in bulk. */
  datatype Kind =
    | OfDatabase(db: SqlDir.Database, names: Result<seq<string>>, bulk: Result<map<string, GroupData>>)
    | OfLdap(describe: string, ids: Result<seq<Identity>>, cfg: LdapCopied.Config, dir: LdapGroups.Directory,
             read: Result<map<string, GroupData>>)
    | Other(source: Source)

  ghost function SourceOf(k: Kind): Source {
    match k
    case OfDatabase(db, names, bulk) => SqlDir.AsSource(db, names, bulk)
    case OfLdap(describe, ids, cfg, dir, read) => LdapGroups.AsSource(describe, ids, cfg, dir, read)
    case Other(s) => s
  }

  /** What the methods of each source return, by their contracts. */
  ghost predicate AsRead(k: Kind) {
    match k
    case OfDatabase(db, names, bulk) => SqlDir.IsGroupList(db, names) && SqlDir.IsBulkRead(db, bulk)
    case OfLdap(_, _, cfg, dir, read) => LdapGroups.IsBulkRead(cfg, dir, read)
    case Other(s) => s.bulk.None?
  }

  /** A directory finds under this name what its client files under it, and its client asks for everything. */
  ghost predicate FiledThere(k: Kind, group: string) {
    k.OfLdap? && k.dir.groups.Ok? ==>
      LdapAnswers.AllCovered(k.cfg) && LdapPromise.FiledAsFound(k.cfg, k.dir, group)
  }

  lemma KindAgrees(k: Kind, group: string)
    requires AsRead(k)
    ensures ListsWhatItReads(SourceOf(k))
    ensures FiledThere(k, group) ==> AgreesAt(SourceOf(k), group)
  {
    hide ListsWhatItReads, AgreesAt, LdapGroups.AllNames, LdapPromise.FiledAsFound, LdapAnswers.AllCovered;
    hide SqlDir.IsBulkRead, SqlDir.IsGroupList;
    match k {
      case OfDatabase(db, names, bulk) =>
        SqlDir.BulkReadAgrees(db, names, bulk, group);
      case OfLdap(describe, ids, cfg, dir, read) =>
        if dir.groups.Ok? {
          LdapPromise.BulkReadAgrees(describe, ids, cfg, dir, read, group);
        }
        NotRead(SourceOf(k), group);
      case Other(s) =>
        NotRead(s, group);
    }
  }

  lemma NotRead(src: Source, group: string)
    ensures src.bulk.None? || src.bulk.value.Err? ==> ListsWhatItReads(src) && AgreesAt(src, group)
  {}

  /** A set of databases, directories and anything else answers all five questions the same after freezing, about
      every group whose entries each directory finds as its client files them, if each client asks for everything. */
  lemma FreezingChangesNothing(ks: seq<Kind>, frozen: seq<Source>, group: string)
    requires |frozen| == |ks|
    requires forall i :: 0 <= i < |ks| ==> AsRead(ks[i]) && FiledThere(ks[i], group)
    requires forall i :: 0 <= i < |ks| ==> Froze(SourceOf(ks[i]), frozen[i])
    ensures var before, after := AsSource(Map(SourceOf, ks)), AsSource(frozen);
            && after.people == before.people
            && after.members(group) == before.members(group)
            && after.AskAttributes(group) == before.AskAttributes(group)
            && after.AskClasses(group) == before.AskClasses(group)
            && after.names == before.names
  {
    hide AsRead, FiledThere, SourceOf, Froze, AgreesAt, ListsWhatItReads, AsSource;
    var ss := Map(SourceOf, ks);
    forall i | 0 <= i < |ss| ensures AgreesAt(ss[i], group) && ListsWhatItReads(ss[i]) {
      KindAgrees(ks[i], group);
    }
    FrozenAnswers(ss, frozen, group);
    FrozenNames(ss, frozen);
  }
}
