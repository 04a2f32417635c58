/** What the answers of a database mean, said of rows and columns by their positions. */
module SqlMeaning {
  import opened Basics
  import opened Faults
  import opened AttributeNames
  import opened AttributeLists
  import opened SqlDir

  // ----- The values of a description -----

  /** Row `r` is about this name and holds this value in column `i`, whose alias is the attribute. */
  ghost predicate HoldsAt(q: AttributeRows, name: string, key: string, i: int, r: int, x: string) {
    && 1 <= i < |q.cols| && Canonical(q.cols[i]) == key
    && 0 <= r < |q.rows| && q.rows[r][0] == Some(name) && q.rows[r][i] == Some(x) && x != ""
  }

  predicate Before(p: (nat, nat), q: (nat, nat)) {
    p.0 < q.0 || (p.0 == q.0 && p.1 < q.1)
  }

  /** The rows about a name that have a value in a column. */
  function RowsWith(rows: seq<seq<Option<string>>>, name: string, col: nat): (rs: seq<nat>) {
    if rows == [] then [] else
      var last := rows[|rows| - 1];
      RowsWith(rows[..|rows| - 1], name, col) +
      if RowName(last) == name && col < |last| && Cell(last[col]) != [] then [|rows| - 1] else []
  }

  lemma {:induction false} RowsWithAre(rows: seq<seq<Option<string>>>, name: string, col: nat)
    ensures |RowsWith(rows, name, col)| == |CellsOf(rows, name, col)|
    ensures forall t :: 0 <= t < |RowsWith(rows, name, col)| ==>
              var r := RowsWith(rows, name, col)[t];
              && r < |rows| && RowName(rows[r]) == name && col < |rows[r]|
              && Cell(rows[r][col]) == [CellsOf(rows, name, col)[t]]
    ensures forall s, t :: 0 <= s < t < |RowsWith(rows, name, col)| ==>
              RowsWith(rows, name, col)[s] < RowsWith(rows, name, col)[t]
    ensures forall r :: 0 <= r < |rows| && RowName(rows[r]) == name && col < |rows[r]| && Cell(rows[r][col]) != [] ==>
              r in RowsWith(rows, name, col)
  {
    hide RowName;
    if rows != [] {
      RowsWithAre(rows[..|rows| - 1], name, col);
    }
  }

  function InColumn(i: nat, rs: seq<nat>): seq<(nat, nat)> {
    Map((r: nat) => (i, r), rs)
  }

  /** Where the values under a key come from, column by column and then row by row. */
  function Places(q: AttributeRows, name: string, key: string, n: nat): seq<(nat, nat)>
    requires n <= |q.cols|
  {
    if n <= 1 then [] else
      Places(q, name, key, n - 1) +
      if Canonical(q.cols[n - 1]) == key then InColumn(n - 1, RowsWith(q.rows, name, n - 1)) else []
  }

  function Listed(q: AttributeRows, name: string, key: string, n: nat): seq<string>
    requires n <= |q.cols|
  {
    Gathered(Columns(q, name, n), key)
  }

  lemma ListedSnoc(q: AttributeRows, name: string, key: string, n: nat)
    requires 1 < n <= |q.cols|
    ensures Listed(q, name, key, n) ==
            Listed(q, name, key, n - 1) +
            if Canonical(q.cols[n - 1]) == key then CellsOf(q.rows, name, n - 1) else []
  {
    hide Canonical, CellsOf;
    var vs := CellsOf(q.rows, name, n - 1);
    var more := if vs != [] then [Attribute(q.cols[n - 1], vs)] else [];
    GatheredConcat(Columns(q, name, n - 1), more, key);
    if vs != [] {
      assert more[..0] == [];
      assert Gathered(more, key) == [] + if Canonical(q.cols[n - 1]) == key then vs else [];
    }
  }

  ghost predicate InPlace(q: AttributeRows, name: string, key: string, n: nat, s: seq<string>, ps: seq<(nat, nat)>) {
    && |s| == |ps|
    && (forall t :: 0 <= t < |ps| ==> ps[t].0 < n && HoldsAt(q, name, key, ps[t].0, ps[t].1, s[t]))
    && (forall t, u :: 0 <= t < u < |ps| ==> Before(ps[t], ps[u]))
    && (forall i: nat, r: nat, x :: i < n && HoldsAt(q, name, key, i, r, x) ==> (i, r) in ps)
  }

  lemma {:induction false} ListedInPlace(q: AttributeRows, name: string, key: string, n: nat)
    requires name != "" && n <= |q.cols|
    ensures InPlace(q, name, key, n, Listed(q, name, key, n), Places(q, name, key, n))
  {
    hide Canonical, CellsOf, RowsWith, Listed, InPlace, ColumnPlaced;
    if n <= 1 {
      NothingListed(q, name, key, n);
    } else {
      ListedInPlace(q, name, key, n - 1);
      ListedSnoc(q, name, key, n);
      ColumnInPlace(q, name, key, n - 1);
      InPlaceSnoc(q, name, key, n - 1, Listed(q, name, key, n - 1), Places(q, name, key, n - 1),
                  if Canonical(q.cols[n - 1]) == key then CellsOf(q.rows, name, n - 1) else [],
                  if Canonical(q.cols[n - 1]) == key then InColumn(n - 1, RowsWith(q.rows, name, n - 1)) else []);
    }
  }

  lemma NothingListed(q: AttributeRows, name: string, key: string, n: nat)
    requires n <= 1 && n <= |q.cols|
    ensures Listed(q, name, key, n) == [] && Places(q, name, key, n) == []
    ensures InPlace(q, name, key, n, [], [])
  {}

  /** The values of one column, by the rows they come from. */
  ghost predicate ColumnPlaced(
      q: AttributeRows, name: string, key: string, i: nat, s: seq<string>, ps: seq<(nat, nat)>) {
    && |s| == |ps|
    && (forall t :: 0 <= t < |ps| ==> ps[t].0 == i && HoldsAt(q, name, key, i, ps[t].1, s[t]))
    && (forall t, u :: 0 <= t < u < |ps| ==> ps[t].1 < ps[u].1)
    && (forall r: nat, x :: HoldsAt(q, name, key, i, r, x) ==> (i, r) in ps)
  }

  lemma ColumnInPlace(q: AttributeRows, name: string, key: string, i: nat)
    requires name != "" && 1 <= i < |q.cols|
    ensures ColumnPlaced(q, name, key, i, if Canonical(q.cols[i]) == key then CellsOf(q.rows, name, i) else [],
                         if Canonical(q.cols[i]) == key then InColumn(i, RowsWith(q.rows, name, i)) else [])
  {
    hide Canonical, CellsOf, RowsWith;
    if Canonical(q.cols[i]) == key {
      var rs := RowsWith(q.rows, name, i);
      var ps := InColumn(i, rs);
      RowsWithAre(q.rows, name, i);
      forall r: nat, x | HoldsAt(q, name, key, i, r, x) ensures (i, r) in ps {
        assert r in rs;
        var t :| 0 <= t < |rs| && rs[t] == r;
        assert ps[t] == (i, r);
      }
    }
  }

  lemma InPlaceSnoc(
      q: AttributeRows, name: string, key: string, n: nat, s: seq<string>, ps: seq<(nat, nat)>, more: seq<string>,
      at: seq<(nat, nat)>)
    requires InPlace(q, name, key, n, s, ps) && ColumnPlaced(q, name, key, n, more, at)
    ensures InPlace(q, name, key, n + 1, s + more, ps + at)
  {
    hide HoldsAt;
    var all := ps + at;
    forall i: nat, r: nat, x | i < n + 1 && HoldsAt(q, name, key, i, r, x) ensures (i, r) in all {
      if i < n {
        assert (i, r) in ps;
      } else {
        assert (i, r) in at;
      }
    }
    forall t | 0 <= t < |all| ensures all[t].0 < n + 1 && HoldsAt(q, name, key, all[t].0, all[t].1, (s + more)[t]) {}
  }

  /** What is read back of a row's attribute: a value exactly if some row about the name holds it, not empty, in some
      column whose alias is equivalent; each once; and in order of where it first stands, column by column and then
      row by row. */
  lemma RowAnswer(q: AttributeRows, name: string, key: string, x: string)
    requires name != ""
    ensures var vs := ValuesUnder(AttributesOfRow(q, name), key);
            && (x in vs <==> exists i, r :: HoldsAt(q, name, key, i, r, x))
            && NoRepeats(vs)
            && forall m, n :: 0 <= m < n < |vs| ==> StandsBefore(q, name, key, vs[m], vs[n])
  {
    hide Canonical, Columns, CellsOf, HoldsAt, StandsBefore, AttributesOfRow, ValuesUnder;
    var n := |q.cols|;
    var s, ps := Listed(q, name, key, n), Places(q, name, key, n);
    ListedInPlace(q, name, key, n);
    RowMeaning(q, name, key);
    DedupMeaning(s);
    assert ValuesUnder(AttributesOfRow(q, name), key) == Dedup(s);
    PlacedValues(q, name, key, s, ps, x);
    var vs := Dedup(s);
    forall a, b | 0 <= a < b < |vs| ensures StandsBefore(q, name, key, vs[a], vs[b]) {
      PlacedOrder(q, name, key, s, ps, vs[a], vs[b]);
    }
  }

  /** One value stands somewhere in front of everywhere the other does. */
  ghost predicate StandsBefore(q: AttributeRows, name: string, key: string, x: string, y: string) {
    exists i: nat, r: nat :: HoldsAt(q, name, key, i, r, x) &&
      forall j: nat, t: nat :: HoldsAt(q, name, key, j, t, y) ==> Before((i, r), (j, t))
  }

  lemma PlacedValues(q: AttributeRows, name: string, key: string, s: seq<string>, ps: seq<(nat, nat)>, x: string)
    requires InPlace(q, name, key, |q.cols|, s, ps)
    ensures x in s <==> exists i, r :: HoldsAt(q, name, key, i, r, x)
  {
    hide Canonical;
    if x in s {
      var t :| 0 <= t < |s| && s[t] == x;
      assert HoldsAt(q, name, key, ps[t].0, ps[t].1, x);
    }
    if i, r :| HoldsAt(q, name, key, i, r, x) {
      assert (i, r) in ps;
      var t :| 0 <= t < |ps| && ps[t] == (i, r);
      assert HoldsAt(q, name, key, i, r, s[t]);
    }
  }

  lemma PlacedOrder(
      q: AttributeRows, name: string, key: string, s: seq<string>, ps: seq<(nat, nat)>, x: string, y: string)
    requires InPlace(q, name, key, |q.cols|, s, ps) && x in s && y in s && FirstIndex(s, x) < FirstIndex(s, y)
    ensures StandsBefore(q, name, key, x, y)
  {
    hide Canonical;
    var a := FirstIndex(s, x);
    assert HoldsAt(q, name, key, ps[a].0, ps[a].1, x);
    forall j: nat, t: nat | HoldsAt(q, name, key, j, t, y) ensures Before(ps[a], (j, t)) {
      assert (j, t) in ps;
      var b :| 0 <= b < |ps| && ps[b] == (j, t);
      assert HoldsAt(q, name, key, j, t, s[b]);
      assert s[b] == y;
    }
  }

  // ----- Which names are described, and when the query is refused -----

  ghost predicate AboutAt(q: AttributeRows, name: string, r: int) {
    0 <= r < |q.rows| && q.cols != [] && q.rows[r][0] == Some(name)
  }

  /** A row that names nobody: NULL or empty in the first column. */
  ghost predicate NamelessAt(q: AttributeRows, r: int) {
    0 <= r < |q.rows| && q.cols != [] && (q.rows[r][0] == None || q.rows[r][0] == Some(""))
  }

  /** A query is read exactly when it has a column to describe by, no column is refused, every row names somebody and
      the reading came to its end; then the names described are those in the rows. Too few columns are the error before
      a column refused, that before a row without a name, and that before a failure of the reading. */
  lemma DescribedMeaning(q: AttributeRows, name: string)
    ensures var r := DescribedBy(Some(Ok(q)));
            && (r.Ok? <==> |q.cols| >= 2 && (forall i :: 1 <= i < |q.cols| ==> Accepts(q.cols[i])) &&
                           (forall k :: !NamelessAt(q, k)) && q.failure.None?)
            && (r.Ok? ==> (name in r.value <==> exists k :: AboutAt(q, name, k)))
            && (|q.cols| < 2 ==> r == Err(BadQuery))
            && (|q.cols| >= 2 && (exists i :: 1 <= i < |q.cols| && !Accepts(q.cols[i])) ==> r == Err(AttributeName))
            && (|q.cols| >= 2 && ColumnsAccepted(q) && (exists k :: NamelessAt(q, k)) ==> r == Err(BadQuery))
            && (|q.cols| >= 2 && ColumnsAccepted(q) && (forall k :: !NamelessAt(q, k)) && q.failure.Some? ==>
                  r == Err(q.failure.value))
  {
    hide Accepts, AttributesOfRow;
    if |q.cols| >= 2 {
      NamesAt(q, "");
      NamesAt(q, name);
    }
  }

  lemma NamesAt(q: AttributeRows, name: string)
    requires |q.cols| >= 2
    ensures name == "" ==> (name in RowNames(q.rows) <==> exists k :: NamelessAt(q, k))
    ensures name != "" ==> (name in RowNames(q.rows) <==> exists k :: AboutAt(q, name, k))
  {
    if name in RowNames(q.rows) {
      var k :| 0 <= k < |q.rows| && RowNames(q.rows)[k] == name;
      assert name == "" ==> NamelessAt(q, k);
      assert name != "" ==> AboutAt(q, name, k);
    }
    if k :| NamelessAt(q, k) {
      assert RowNames(q.rows)[k] == "";
    }
    if k :| AboutAt(q, name, k) {
      assert RowNames(q.rows)[k] == name;
    }
  }

  // ----- Who is in a group -----

  /** The rows about a group. */
  function RowsOf(rows: seq<(string, string)>, group: string): seq<nat> {
    if rows == [] then [] else
      RowsOf(rows[..|rows| - 1], group) + if rows[|rows| - 1].0 == group then [|rows| - 1] else []
  }

  /** A group's members are those of the rows about it, in the order of the rows, as often as there are rows. */
  lemma {:induction false} MembersMeaning(rows: seq<(string, string)>, group: string)
    ensures var at, ms := RowsOf(rows, group), MembersIn(rows, group);
            && |at| == |ms|
            && (forall t :: 0 <= t < |at| ==> at[t] < |rows| && rows[at[t]] == (group, ms[t]))
            && (forall t, u :: 0 <= t < u < |at| ==> at[t] < at[u])
            && (forall r: nat :: r < |rows| && rows[r].0 == group ==> r in at)
  {
    if rows != [] {
      MembersMeaning(rows[..|rows| - 1], group);
    }
  }

  // ----- The three questions -----

  ghost predicate NamedAt(m: MemberRows, group: string, r: int) {
    0 <= r < |m.rows| && m.rows[r].0 == group
  }

  /** When both queries are read, a group is there exactly when a row of either names it; its members are those of its
      rows, its attributes those of its description, and its classes the ones declared. */
  lemma AnswersMeaning(db: Database, m: MemberRows, q: AttributeRows, group: string)
    requires db.groups == Some(Ok(m)) && m.failure.None? && db.described == Some(Ok(q))
    requires DescribedBy(db.described).Ok?
    ensures var named, about := exists r :: NamedAt(m, group, r), exists r :: AboutAt(q, group, r);
            && MembersOf(db, group) == (if named || about then Ok(MembersIn(m.rows, group)) else Err(NoSuchGroup))
            && AttributesOf(db, group) ==
               (if about then Ok(AttributesOfRow(q, group)) else if named then Ok([]) else Err(NoSuchGroup))
            && ClassesOf(db, group) == (if named || about then Ok(db.classes) else Err(NoSuchGroup))
  {
    hide Accepts, AttributesOfRow, MembersIn;
    DescribedMeaning(q, group);
    NamedMeaning(m, group);
    NoMembers(m.rows, group);
  }

  lemma NamedMeaning(m: MemberRows, group: string)
    ensures group in GroupsIn(m.rows) <==> exists r :: NamedAt(m, group, r)
  {
    if group in GroupsIn(m.rows) {
      var r :| 0 <= r < |m.rows| && GroupsIn(m.rows)[r] == group;
      assert NamedAt(m, group, r);
    }
    if r :| NamedAt(m, group, r) {
      assert GroupsIn(m.rows)[r] == group;
    }
  }
}
