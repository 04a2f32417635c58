/** People and groups read from a database: sqldir.go. Queries are the rows they return. */
module SqlDir {
  import opened Basics
  import opened Ordering
  import opened Faults
  import opened AttributeNames
  import opened AttributeLists
  import opened AttributeStore
  import opened Sources
  import opened DirectorySet

  /** Rows of the groups query, and the failure that ended the reading, if one did. */
  datatype MemberRows = MemberRows(rows: seq<(string, string)>, failure: Option<Fault>)

  datatype AttributeRowsRaw = AttributeRows(cols: seq<string>, rows: seq<seq<Option<string>>>, failure: Option<Fault>)

  /** Rows of an attributes query: as many cells in each as there are columns. */
  type AttributeRows = q: AttributeRowsRaw | forall i :: 0 <= i < |q.rows| ==> |q.rows[i]| == |q.cols|
    witness AttributeRowsRaw.AttributeRows([], [], None)

  /** A database as this source sees it: a query left blank is None, one that does not run is an error. */
  datatype Database = Database(
    name: string,
    people: Result<seq<Identity>>,
    groups: Option<Result<MemberRows>>,
    described: Option<Result<AttributeRows>>,
    classes: seq<string>)
  {
    predicate NoGroups() { groups.None? && described.None? }
  }

  // ----- What the queries say -----

  function GroupsIn(rows: seq<(string, string)>): seq<string> {
    Map((r: (string, string)) => r.0, rows)
  }

  function MembersIn(rows: seq<(string, string)>, group: string): seq<string> {
    if rows == [] then [] else
      var last := rows[|rows| - 1];
      MembersIn(rows[..|rows| - 1], group) + (if last.0 == group then [last.1] else [])
  }

  /** Who is in which group, a member as often as there are rows for them. */
  function Grouped(rows: seq<(string, string)>): map<string, seq<string>> {
    map g | g in GroupsIn(rows) :: MembersIn(rows, g)
  }

  function MembershipsOf(q: Option<Result<MemberRows>>): Result<map<string, seq<string>>> {
    match q
    case None => Ok(map[])
    case Some(Err(e)) => Err(e)
    case Some(Ok(m)) =>
      if m.failure.Some? then Err(m.failure.value)
      else Ok(Grouped(m.rows))
  }

  /** The name a row is about; a NULL or empty one names nobody. */
  function RowName(row: seq<Option<string>>): string {
    if row == [] || row[0].None? then "" else row[0].value
  }

  function RowNames(rows: seq<seq<Option<string>>>): seq<string> {
    Map(RowName, rows)
  }

  function Cell(c: Option<string>): seq<string> {
    if c.Some? && c.value != "" then [c.value] else []
  }

  /** The values of one column in the rows about `name`: NULL and the empty string are no value. */
  function CellsOf(rows: seq<seq<Option<string>>>, name: string, col: nat): seq<string> {
    if rows == [] then [] else
      var last := rows[|rows| - 1];
      CellsOf(rows[..|rows| - 1], name, col) +
      (if RowName(last) == name && col < |last| then Cell(last[col]) else [])
  }

  /** The attributes of `name`: each column up to `n` that has values, under its alias. */
  function Columns(q: AttributeRows, name: string, n: nat): seq<Attribute>
    requires n <= |q.cols|
  {
    if n <= 1 then [] else
      Columns(q, name, n - 1) +
      (var vs := CellsOf(q.rows, name, n - 1); if vs != [] then [Attribute(q.cols[n - 1], vs)] else [])
  }

  function ColumnsOf(q: AttributeRows, name: string): seq<Attribute> {
    Columns(q, name, |q.cols|)
  }

  predicate ColumnsAccepted(q: AttributeRows) {
    forall i :: 1 <= i < |q.cols| ==> Accepts(q.cols[i])
  }

  ghost function DescribedBy(q: Option<Result<AttributeRows>>): Result<map<string, Attrs>> {
    match q
    case None => Ok(map[])
    case Some(Err(e)) => Err(e)
    case Some(Ok(a)) =>
      if |a.cols| < 2 then Err(BadQuery)
      else if !ColumnsAccepted(a) then Err(AttributeName)
      else if "" in RowNames(a.rows) then Err(BadQuery)
      else if a.failure.Some? then Err(a.failure.value)
      else Ok(Descriptions(a))
  }

  ghost function Descriptions(a: AttributeRows): map<string, Attrs> {
    map n | n in RowNames(a.rows) :: AttributesOfRow(a, n)
  }

  ghost function AttributesOfRow(a: AttributeRows, name: string): Attrs {
    AddAllWellFormed([], ColumnsOf(a, name));
    AddAll([], ColumnsOf(a, name))
  }

  // ----- What each question answers -----

  ghost function MembersOf(db: Database, group: string): Result<seq<string>> {
    if db.NoGroups() then Err(NoSuchGroup)
    else match MembershipsOf(db.groups)
         case Err(e) => Err(e)
         case Ok(members) =>
           if group in members then Ok(members[group])
           else match DescribedBy(db.described)
                case Err(e) => Err(e)
                case Ok(attrs) => if group in attrs then Ok([]) else Err(NoSuchGroup)
  }

  ghost function AttributesOf(db: Database, group: string): Result<Attrs> {
    match DescribedBy(db.described)
    case Err(e) => Err(e)
    case Ok(attrs) =>
      if group in attrs then Ok(attrs[group])
      else match MembersOf(db, group) case Err(e) => Err(e) case Ok(_) => Ok([])
  }

  ghost function ClassesOf(db: Database, group: string): Result<seq<string>> {
    match MembersOf(db, group) case Err(e) => Err(e) case Ok(_) => Ok(db.classes)
  }

  /** Both queries, in the order they are run. */
  ghost function BothRead(db: Database): Result<(map<string, seq<string>>, map<string, Attrs>)> {
    match MembershipsOf(db.groups)
    case Err(e) => Err(e)
    case Ok(members) => match DescribedBy(db.described) case Err(e) => Err(e) case Ok(attrs) => Ok((members, attrs))
  }

  /** A bulk read is a map whose keys are the groups either query names, each with its per-group answers. */
  ghost predicate IsBulkRead(db: Database, r: Result<map<string, GroupData>>) {
    match BothRead(db)
    case Err(e) => r == Err(e)
    case Ok((members, attrs)) =>
      && r.Ok? && r.value.Keys == members.Keys + attrs.Keys
      && forall g :: g in r.value ==> r.value[g] == DataOf(db, members, attrs, g)
  }

  /** What both queries say about one group; a group only described has nobody in it. */
  function DataOf(db: Database, members: map<string, seq<string>>, attrs: map<string, Attrs>, g: string): GroupData {
    GroupData(if g in members then members[g] else [], if g in attrs then attrs[g] else [], db.classes)
  }

  lemma DataFrom(db: Database, members: map<string, seq<string>>, attrs: map<string, Attrs>, g: string)
    ensures g in members ==>
              DataOf(db, members, attrs, g) == GroupData(members[g], if g in attrs then attrs[g] else [], db.classes)
    ensures g !in members && g in attrs ==> DataOf(db, members, attrs, g) == GroupData([], attrs[g], db.classes)
  {}

  ghost predicate IsGroupList(db: Database, r: Result<seq<string>>) {
    match BothRead(db)
    case Err(e) => r == Err(e)
    case Ok((members, attrs)) =>
      && r.Ok? && Sorted(StringLe, r.value) && NoRepeats(r.value)
      && forall g :: g in r.value <==> g in members || g in attrs
  }

  /** This database as a source, given what its two whole-directory questions returned. */
  ghost function AsSource(db: Database, names: Result<seq<string>>, bulk: Result<map<string, GroupData>>): Source {
    Source(db.name, db.people, g => MembersOf(db, g), Some(g => AttributesOf(db, g)), Some(g => ClassesOf(db, g)),
           Some(names), Some(bulk))
  }

  /** The bulk read keeps the promise of GroupReader, at every name and about the list of names. */
  lemma BulkReadAgrees(db: Database, names: Result<seq<string>>, bulk: Result<map<string, GroupData>>, group: string)
    requires IsGroupList(db, names) && IsBulkRead(db, bulk)
    ensures AgreesAt(AsSource(db, names, bulk), group)
    ensures ListsWhatItReads(AsSource(db, names, bulk))
    ensures bulk.Ok? <==> names.Ok?
    ensures bulk.Err? ==> names == Err(bulk.error)
  {
    hide DescribedBy, MembershipsOf;
    var src := AsSource(db, names, bulk);
    assert src.AskAttributes(group) == AttributesOf(db, group);
    assert src.AskClasses(group) == ClassesOf(db, group);
    if db.NoGroups() {
      BlankQueries(db);
    }
  }

  /** There is only one such map, in whatever order the two maps it is filled from are walked. */
  lemma BulkReadUnique(db: Database, r: Result<map<string, GroupData>>, s: Result<map<string, GroupData>>)
    requires IsBulkRead(db, r) && IsBulkRead(db, s)
    ensures r == s
  {
    hide DescribedBy, MembershipsOf, DataOf;
    if r.Ok? {
      assert r.value.Keys == s.value.Keys;
      assert r.value == s.value;
    }
  }

  lemma BlankQueries(db: Database)
    requires db.NoGroups()
    ensures BothRead(db) == Ok((map[], map[]))
  {}

  // ----- Once the columns are checked, no row can be refused -----

  lemma {:induction false} CellsNotEmpty(rows: seq<seq<Option<string>>>, name: string, col: nat)
    ensures "" !in CellsOf(rows, name, col)
  {
    if rows != [] {
      CellsNotEmpty(rows[..|rows| - 1], name, col);
    }
  }

  lemma {:induction false} ColumnsCannotFail(q: AttributeRows, name: string, n: nat)
    requires n <= |q.cols| && ColumnsAccepted(q)
    ensures forall a :: a in Columns(q, name, n) ==> Accepts(a.name) && a.values != [] && "" !in a.values
  {
    hide Accepts;
    if n > 1 {
      ColumnsCannotFail(q, name, n - 1);
      CellsNotEmpty(q.rows, name, n - 1);
    }
  }

  /** NewAttributes accepts every row of a query whose columns were accepted. */
  lemma RowsCannotFail(q: AttributeRows, name: string)
    requires ColumnsAccepted(q)
    ensures AttributeLists.Built(ColumnsOf(q, name)) == Ok(AddAll([], ColumnsOf(q, name)))
  {
    hide Accepts;
    ColumnsCannotFail(q, name, |q.cols|);
    NothingRefused(ColumnsOf(q, name));
  }

  // ----- The code -----

  method Memberships(q: Option<Result<MemberRows>>) returns (r: Result<map<string, seq<string>>>, order: seq<string>)
    ensures r == MembershipsOf(q)
    ensures r.Ok? ==> NoRepeats(order) && forall g :: g in order <==> g in r.value
  {
    order := [];
    if q.None? {
      return Ok(map[]), [];
    }
    if q.value.Err? {
      return Err(q.value.error), [];
    }
    var rows := q.value.value.rows;
    var members: map<string, seq<string>> := map[];
    for i := 0 to |rows|
      invariant members == Grouped(rows[..i])
      invariant NoRepeats(order) && forall g :: g in order <==> g in members
    {
      var (g, member) := rows[i];
      GroupedStep(rows, i);
      if g !in members {
        order := order + [g];
      }
      members := members[g := (if g in members then members[g] else []) + [member]];
    }
    assert rows[..|rows|] == rows;
    if q.value.value.failure.Some? {
      return Err(q.value.value.failure.value), [];
    }
    return Ok(members), order;
  }

  lemma GroupedStep(rows: seq<(string, string)>, i: nat)
    requires i < |rows|
    ensures var (g, member) := rows[i];
            var before := Grouped(rows[..i]);
            Grouped(rows[..i + 1]) == before[g := (if g in before then before[g] else []) + [member]]
  {
    hide MembersIn;
    var (g, member) := rows[i];
    assert rows[..i + 1] == rows[..i] + [rows[i]];
    assert GroupsIn(rows[..i + 1]) == GroupsIn(rows[..i]) + [g];
    NoMembers(rows[..i], g);
    forall h
      ensures MembersIn(rows[..i + 1], h) ==
              if g == h then MembersIn(rows[..i], h) + [member] else MembersIn(rows[..i], h)
    {
      MembersStep(rows[..i], rows[i], h);
    }
  }

  lemma MembersStep(rows: seq<(string, string)>, last: (string, string), group: string)
    ensures MembersIn(rows + [last], group) ==
            if last.0 == group then MembersIn(rows, group) + [last.1] else MembersIn(rows, group)
  {
    assert (rows + [last])[..|rows|] == rows;
    assert MembersIn(rows, group) + [] == MembersIn(rows, group);
  }

  lemma {:induction false} NoMembers(rows: seq<(string, string)>, group: string)
    ensures group !in GroupsIn(rows) ==> MembersIn(rows, group) == []
  {
    if rows != [] {
      NoMembers(rows[..|rows| - 1], group);
      assert GroupsIn(rows) == GroupsIn(rows[..|rows| - 1]) + [rows[|rows| - 1].0];
    }
  }

  /** What has been gathered from some rows: for each name in them, one list of values a column. */
  ghost predicate Tallied(a: AttributeRows, rows: seq<seq<Option<string>>>, values: map<string, seq<seq<string>>>) {
    && (forall n :: n in values <==> n in RowNames(rows))
    && (forall n :: n in values ==> |values[n]| == |a.cols| - 1)
    && (forall n, c {:trigger values[n][c]} :: n in values && 0 <= c < |a.cols| - 1 ==>
        values[n][c] == CellsOf(rows, n, c + 1))
  }

  /** The values of one row, behind those already there. */
  method TakeRow(have: seq<seq<string>>, row: seq<Option<string>>) returns (per: seq<seq<string>>)
    requires |row| == |have| + 1
    ensures |per| == |have|
    ensures forall c :: 0 <= c < |have| ==> per[c] == have[c] + Cell(row[c + 1])
  {
    per := have;
    for i := 0 to |have|
      invariant |per| == |have|
      invariant forall c :: 0 <= c < i ==> per[c] == have[c] + Cell(row[c + 1])
      invariant forall c :: i <= c < |have| ==> per[c] == have[c]
    {
      if row[i + 1].Some? && row[i + 1].value != "" {
        per := per[i := per[i] + [row[i + 1].value]];
      }
    }
  }

  lemma TallyStep(a: AttributeRows, i: nat, values: map<string, seq<seq<string>>>, per: seq<seq<string>>)
    requires i < |a.rows| && |a.cols| >= 2 && Tallied(a, a.rows[..i], values)
    requires var name := RowName(a.rows[i]);
             && |per| == |a.cols| - 1
             && forall c :: 0 <= c < |per| ==>
                  per[c] == (if name in values then values[name][c] else []) + Cell(a.rows[i][c + 1])
    ensures Tallied(a, a.rows[..i + 1], values[RowName(a.rows[i]) := per])
  {
    var before, rows, name := a.rows[..i], a.rows[..i + 1], RowName(a.rows[i]);
    assert rows[..i] == before && rows[i] == a.rows[i];
    assert RowNames(rows) == RowNames(before) + [name];
    var after := values[name := per];
    forall n, c | n in after && 0 <= c < |a.cols| - 1 ensures after[n][c] == CellsOf(rows, n, c + 1) {
      NoCells(before, n, c + 1);
      if n in values {
        assert values[n][c] == CellsOf(before, n, c + 1);
      }
      assert CellsOf(before, n, c + 1) + [] == CellsOf(before, n, c + 1);
    }
  }

  lemma {:induction false} NoCells(rows: seq<seq<Option<string>>>, name: string, col: nat)
    ensures name !in RowNames(rows) ==> CellsOf(rows, name, col) == []
  {
    if rows != [] {
      var init := rows[..|rows| - 1];
      NoCells(init, name, col);
      assert RowNames(rows) == RowNames(init) + [RowName(rows[|rows| - 1])];
    }
  }

  method Attributes(q: Option<Result<AttributeRows>>) returns (r: Result<map<string, Attrs>>)
    ensures r == DescribedBy(q)
  {
    hide Accepts, CellsOf, Tallied, AttributesOfRow, RowNames, WellFormed;
    if q.None? {
      return Ok(map[]);
    }
    if q.value.Err? {
      return Err(q.value.error);
    }
    var a := q.value.value;
    if |a.cols| < 2 {
      return Err(BadQuery);
    }
    for i := 1 to |a.cols|
      invariant forall k :: 1 <= k < i ==> Accepts(a.cols[k])
    {
      if !Accepts(a.cols[i]) {
        return Err(AttributeName);
      }
    }
    var order, values;
    r, order, values := Tally(a);
    if r.Err? {
      return;
    }
    var out: map<string, Attrs> := map[];
    for i := 0 to |order|
      invariant forall n :: n in out <==> n in order[..i]
      invariant forall n :: n in out ==> out[n] == AttributesOfRow(a, n)
    {
      assert order[..i + 1] == order[..i] + [order[i]];
      TalliedLength(a, values, order[i]);
      var attrs := RowAttributes(a, order[i], values[order[i]]);
      out := out[order[i] := attrs];
    }
    assert order[..|order|] == order;
    assert out == Descriptions(a);
    return Ok(out);
  }

  lemma TalliedLength(a: AttributeRows, values: map<string, seq<seq<string>>>, name: string)
    requires Tallied(a, a.rows, values) && name in values && |a.cols| >= 2
    ensures |values[name]| == |a.cols| - 1
    ensures forall c :: 0 <= c < |a.cols| - 1 ==> values[name][c] == CellsOf(a.rows, name, c + 1)
  {}

  /** Reads every row; nothing is kept of a query that fails. */
  method Tally(a: AttributeRows) returns (r: Result<map<string, Attrs>>, order: seq<string>,
        values: map<string, seq<seq<string>>>)
    requires |a.cols| >= 2
    ensures r.Err? ==> (if "" in RowNames(a.rows) then r == Err(BadQuery)
                        else a.failure.Some? && r == Err(a.failure.value))
    ensures r.Ok? ==> "" !in RowNames(a.rows) && a.failure.None? && Tallied(a, a.rows, values)
    ensures r.Ok? ==> NoRepeats(order) && forall n :: n in order <==> n in values
    ensures r.Ok? ==> forall n :: n in values <==> n in RowNames(a.rows)
  {
    order, values := [], map[];
    var rows := a.rows;
    for i := 0 to |rows|
      invariant Tallied(a, rows[..i], values) && "" !in RowNames(rows[..i])
      invariant NoRepeats(order) && forall n :: n in order <==> n in values
    {
      hide Tallied, CellsOf;
      assert RowNames(rows[..i + 1]) == RowNames(rows[..i]) + [RowName(rows[i])];
      if rows[i][0].None? || rows[i][0].value == "" {
        assert RowNames(rows)[i] == "";
        return Err(BadQuery), order, values;
      }
      var name := rows[i][0].value;
      var have := seq(|a.cols| - 1, _ => []);
      if name in values {
        TalliedShape(a, rows[..i], values, name);
        have := values[name];
      } else {
        order := order + [name];
      }
      var per := TakeRow(have, rows[i]);
      TallyStep(a, i, values, per);
      values := values[name := per];
    }
    assert rows[..|rows|] == rows;
    if a.failure.Some? {
      return Err(a.failure.value), order, values;
    }
    return Ok(map[]), order, values;
  }

  lemma TalliedShape(a: AttributeRows, rows: seq<seq<Option<string>>>, values: map<string, seq<seq<string>>>,
        name: string)
    requires Tallied(a, rows, values) && name in values
    ensures |values[name]| == |a.cols| - 1
  {}

  lemma NoColumns(a: AttributeRows, name: string)
    requires |a.cols| >= 2
    ensures Columns(a, name, 1) == []
  {}

  lemma NextColumn(a: AttributeRows, name: string, n: nat)
    requires 1 <= n < |a.cols|
    ensures var vs := CellsOf(a.rows, name, n);
            Columns(a, name, n + 1) == Columns(a, name, n) + (if vs != [] then [Attribute(a.cols[n], vs)] else [])
  {}

  /** One name's attributes, from its columns' values. NewAttributes cannot refuse them. */
  method RowAttributes(a: AttributeRows, name: string, values: seq<seq<string>>) returns (attrs: Attrs)
    requires |a.cols| >= 2 && ColumnsAccepted(a)
    requires |values| == |a.cols| - 1 && forall c :: 0 <= c < |values| ==> values[c] == CellsOf(a.rows, name, c + 1)
    ensures attrs == AttributesOfRow(a, name)
  {
    hide Accepts, CellsOf, Columns, AddAll, WellFormed, FirstRefusal;
    var list: seq<Attribute> := [];
    NoColumns(a, name);
    for i := 0 to |values|
      invariant list == Columns(a, name, i + 1)
    {
      NextColumn(a, name, i + 1);
      if |values[i]| > 0 {
        list := list + [Attribute(a.cols[i + 1], values[i])];
      }
    }
    RowsCannotFail(a, name);
    var held := Slices(list);
    var built := NewAttributes(held);
    attrs := built.value.All();
  }

  /** What is read back of a row's attribute: the values of every column with an equivalent alias, once each. */
  lemma RowMeaning(a: AttributeRows, name: string, key: string)
    ensures ValuesUnder(AttributesOfRow(a, name), key) == Dedup(Gathered(ColumnsOf(a, name), key))
  {
    hide Canonical;
    ValuesAfterAddAll([], ColumnsOf(a, name), key);
    KeysAfterAddAll([], []);
  }

  method ReadGroups(db: Database) returns (r: Result<map<string, GroupData>>)
    ensures IsBulkRead(db, r)
  {
    hide DescribedBy, MembershipsOf, DataOf;
    if db.NoGroups() {
      BlankQueries(db);
      return Ok(map[]);
    }
    var got, _ := Memberships(db.groups);
    if got.Err? {
      return Err(got.error);
    }
    var described := Attributes(db.described);
    if described.Err? {
      return Err(described.error);
    }
    var out := Collect(db, got.value, described.value);
    return Ok(out);
  }

  /** Every group of the first map, then every one of the second that the first lacks. */
  method Collect(db: Database, members: map<string, seq<string>>, attrs: map<string, Attrs>)
    returns (out: map<string, GroupData>)
    ensures out.Keys == members.Keys + attrs.Keys
    ensures forall g :: g in out ==> out[g] == DataOf(db, members, attrs, g)
  {
    hide DataOf;
    out := map[];
    var left := members.Keys;
    while left != {}
      invariant left <= members.Keys && out.Keys == members.Keys - left
      invariant forall g :: g in out ==> out[g] == DataOf(db, members, attrs, g)
      decreases left
    {
      var g :| g in left;
      left := left - {g};
      DataFrom(db, members, attrs, g);
      out := out[g := GroupData(members[g], if g in attrs then attrs[g] else [], db.classes)];
    }
    left := attrs.Keys;
    while left != {}
      invariant left <= attrs.Keys && out.Keys == members.Keys + (attrs.Keys - left)
      invariant forall g :: g in out ==> out[g] == DataOf(db, members, attrs, g)
      decreases left
    {
      var g :| g in left;
      left := left - {g};
      if g !in members {
        DataFrom(db, members, attrs, g);
        out := out[g := GroupData([], attrs[g], db.classes)];
      }
    }
  }

  method GroupNames(db: Database) returns (r: Result<seq<string>>)
    ensures IsGroupList(db, r)
  {
    hide DescribedBy, MembershipsOf, WellFormed;
    if db.NoGroups() {
      BlankQueries(db);
      return Ok([]);
    }
    var got, order := Memberships(db.groups);
    if got.Err? {
      return Err(got.error);
    }
    var described := Attributes(db.described);
    if described.Err? {
      return Err(described.error);
    }
    var names, left := order, described.value.Keys;
    while left != {}
      invariant left <= described.value.Keys
      invariant forall g :: g in names <==> g in got.value || g in described.value.Keys - left
      decreases left
    {
      var g :| g in left;
      left := left - {g};
      names := names + [g];
    }
    StringTotalOrder();
    SortedSetMeaning(StringLe, names);
    return Ok(SortedSet(StringLe, names));
  }

  method Members(db: Database, group: string) returns (r: Result<seq<string>>)
    ensures r == MembersOf(db, group)
  {
    hide DescribedBy, MembershipsOf;
    if db.NoGroups() {
      return Err(NoSuchGroup);
    }
    var got, _ := Memberships(db.groups);
    if got.Err? {
      return Err(got.error);
    }
    if group in got.value {
      return Ok(got.value[group]);
    }
    var described := Attributes(db.described);
    if described.Err? {
      return Err(described.error);
    }
    return if group in described.value then Ok([]) else Err(NoSuchGroup);
  }

  method GroupAttributes(db: Database, group: string) returns (r: Result<Attrs>)
    ensures r == AttributesOf(db, group)
  {
    hide DescribedBy, MembershipsOf;
    var described := Attributes(db.described);
    if described.Err? {
      return Err(described.error);
    }
    if group in described.value {
      return Ok(described.value[group]);
    }
    var members := Members(db, group);
    if members.Err? {
      return Err(members.error);
    }
    return Ok([]);
  }

  method GroupObjectClasses(db: Database, group: string) returns (r: Result<seq<string>>)
    ensures r == ClassesOf(db, group)
  {
    var members := Members(db, group);
    if members.Err? {
      return Err(members.error);
    }
    return Ok(db.classes);
  }
}
