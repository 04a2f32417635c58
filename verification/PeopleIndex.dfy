/** The people a search imported, by the canonical key of the DN each was returned under. */
module PeopleIndex {
  import opened Basics
  import opened DnKey

  /** What the people search returned for one entry: its DN as text, and its naming attribute's first value. */
  datatype Person = Person(dn: string, name: string)

  /** ldap.ParseDN. Nothing is known of it: it may refuse any text. */
  const PARSE_DN: string -> Option<Dn>

  type Index = map<seq<Byte>, string>

  /** The search this index replaces: the first named person whose DN parses and matches. */
  ghost function LinearSearch(people: seq<Person>, dn: Dn): Option<string> {
    if dn == [] || people == [] then None
    else if Named(people[0], dn) then Some(people[0].name)
    else LinearSearch(people[1..], dn)
  }

  ghost predicate Named(p: Person, dn: Dn) {
    p.name != "" && PARSE_DN(p.dn).Some? && DnMatches(PARSE_DN(p.dn).value, dn)
  }

  /** Of these people, the one at `i` is the first with a name and a DN that parses and matches. */
  ghost predicate IsFirst(people: seq<Person>, dn: Dn, i: int) {
    && 0 <= i < |people| && people[i].name != ""
    && PARSE_DN(people[i].dn).Some? && DnMatches(PARSE_DN(people[i].dn).value, dn)
    && forall k :: 0 <= k < i && people[k].name != "" && PARSE_DN(people[k].dn).Some? ==>
         !DnMatches(PARSE_DN(people[k].dn).value, dn)
  }

  /** The search finds a name exactly when the DN is not empty and the first match bears it. */
  lemma {:induction false} SearchFinds(people: seq<Person>, dn: Dn, name: string)
    ensures LinearSearch(people, dn) == Some(name) <==>
            dn != [] && exists i :: IsFirst(people, dn, i) && people[i].name == name
  {
    hide DnMatches;
    if dn != [] && people != [] {
      var rest := people[1..];
      SearchFinds(rest, dn, name);
      if Named(people[0], dn) {
        assert IsFirst(people, dn, 0);
      } else {
        forall i ensures IsFirst(rest, dn, i) <==> IsFirst(people, dn, i + 1) {
          assert 0 <= i < |rest| ==> rest[i] == people[i + 1];
          assert IsFirst(people, dn, i + 1) ==> forall k :: 0 <= k < i ==> rest[k] == people[k + 1];
        }
        if i :| IsFirst(people, dn, i) && people[i].name == name {
          assert IsFirst(rest, dn, i - 1);
        }
        if i :| IsFirst(rest, dn, i) && rest[i].name == name {
          assert IsFirst(people, dn, i + 1);
        }
      }
    }
  }

  /** What the loop leaves behind: the first person under a key keeps it. */
  ghost predicate Indexes(index: Index, people: seq<Person>) {
    forall dn: Dn :: dn != [] ==>
      (if Key(dn) in index then Some(index[Key(dn)]) else None) == LinearSearch(people, dn)
  }

  lemma {:induction false} LinearSnoc(people: seq<Person>, p: Person, dn: Dn)
    requires dn != []
    ensures LinearSearch(people + [p], dn) ==
            if LinearSearch(people, dn).Some? then LinearSearch(people, dn)
            else if Named(p, dn) then Some(p.name) else None
  {
    if people == [] {
      assert people + [p] == [p] && [p][1..] == [];
    } else {
      assert (people + [p])[1..] == people[1..] + [p];
      LinearSnoc(people[1..], p, dn);
    }
  }

  /** Reads the entries of one people search into an index that answers as the linear search would. */
  method Imported(people: seq<Person>) returns (index: Index)
    ensures Indexes(index, people)
  {
    index := map[];
    for i := 0 to |people|
      invariant Indexes(index, people[..i])
    {
      ghost var before := index;
      var p := people[i];
      assert people[..i + 1] == people[..i] + [p];
      var dn := PARSE_DN(p.dn);
      if p.name != "" && dn.Some? {
        var k := AppendDnKey([], dn.value);
        assert k == Key(dn.value);
        if k !in index {
          index := index[k := p.name];
        }
      }
      forall e: Dn | e != []
        ensures (if Key(e) in index then Some(index[Key(e)]) else None) == LinearSearch(people[..i + 1], e)
      {
        LinearSnoc(people[..i], p, e);
        if dn.Some? {
          KeyDecidesMatch(dn.value, e);
        }
      }
    }
    assert people[..|people|] == people;
  }

  /** The imported person whose DN is `dn`; the empty DN names nobody, whatever the index holds. */
  method WhoIs(index: Index, ghost people: seq<Person>, dn: Dn) returns (name: Option<string>)
    requires Indexes(index, people)
    ensures name == LinearSearch(people, dn)
    ensures forall n :: name == Some(n) <==> dn != [] && exists i :: IsFirst(people, dn, i) && people[i].name == n
  {
    forall n ensures LinearSearch(people, dn) == Some(n) <==>
                     dn != [] && exists i :: IsFirst(people, dn, i) && people[i].name == n {
      SearchFinds(people, dn, n);
    }
    hide IsFirst;
    if |dn| == 0 {
      return None;
    }
    var k := AppendDnKey([], dn);
    assert k == Key(dn);
    return if k in index then Some(index[k]) else None;
  }
}
