/** What the answers of a directory mean, said of entries, attributes and values by their positions. */
module LdapMeaning {
  import opened Basics
  import opened Ordering
  import opened Faults
  import opened Folding
  import opened DnKey
  import opened PeopleIndex
  import opened AttributeLists
  import opened Sources
  import opened LdapCopied
  import opened LdapGroups
  import opened LdapAnswers
  import opened LdapReading

  // ----- What is read of an entry -----

  /** The first attribute spelled exactly so. */
  ghost predicate FirstAt(attrs: seq<Attribute>, name: string, j: int) {
    0 <= j < |attrs| && attrs[j].name == name && forall k :: 0 <= k < j ==> attrs[k].name != name
  }

  lemma {:induction false} FirstValuesAre(attrs: seq<Attribute>, name: string)
    ensures forall j :: FirstAt(attrs, name, j) ==> FirstValues(attrs, name) == attrs[j].values
    ensures FirstValues(attrs, name) != [] ==> exists j :: FirstAt(attrs, name, j)
  {
    if attrs != [] {
      var rest := attrs[1..];
      FirstValuesAre(rest, name);
      if attrs[0].name == name {
        assert FirstAt(attrs, name, 0);
      } else {
        forall j ensures FirstAt(rest, name, j) <==> FirstAt(attrs, name, j + 1) {
          assert 0 <= j < |rest| ==> rest[j] == attrs[j + 1];
          assert FirstAt(attrs, name, j + 1) ==> forall k :: 0 <= k < j ==> rest[k] == attrs[k + 1];
        }
        forall j | FirstAt(attrs, name, j) ensures FirstValues(attrs, name) == attrs[j].values {
          assert FirstAt(rest, name, j - 1);
        }
        if FirstValues(attrs, name) != [] {
          var j :| FirstAt(rest, name, j);
          assert FirstAt(attrs, name, j + 1);
        }
      }
    }
  }

  /** An entry holds this value, the one at `k`, in the first attribute spelled so. */
  ghost predicate ValueAt(e: Entry, name: string, k: int, v: string) {
    exists j :: FirstAt(e.attributes, name, j) && 0 <= k < |e.attributes[j].values| && e.attributes[j].values[k] == v
  }

  lemma ValuesAre(e: Entry, name: string)
    ensures forall k :: 0 <= k < |FirstValues(e.attributes, name)| ==>
              ValueAt(e, name, k, FirstValues(e.attributes, name)[k])
    ensures forall k, v :: ValueAt(e, name, k, v) ==>
              0 <= k < |FirstValues(e.attributes, name)| && FirstValues(e.attributes, name)[k] == v
  {
    FirstValuesAre(e.attributes, name);
  }

  // ----- Who a DN names -----

  /** An imported person's name: the first value of the naming attribute, and no empty one. */
  ghost predicate IsCalled(cfg: Config, e: Entry, name: string) {
    ValueAt(e, cfg.userAttribute, 0, name) && name != ""
  }

  /** A person with a name, whose own DN parses and matches. */
  ghost predicate Meets(cfg: Config, e: Entry, dn: Dn) {
    && (exists n :: IsCalled(cfg, e, n))
    && PARSE_DN(e.dn).Some? && DnMatches(PARSE_DN(e.dn).value, dn)
  }

  /** The first such person bears this name. */
  ghost predicate NamesPerson(cfg: Config, people: seq<Entry>, dn: Dn, name: string) {
    exists k :: 0 <= k < |people| && Meets(cfg, people[k], dn) && IsCalled(cfg, people[k], name) &&
                forall l :: 0 <= l < k ==> !Meets(cfg, people[l], dn)
  }

  lemma PersonIs(cfg: Config, e: Entry)
    ensures PersonOf(cfg, e).dn == e.dn
    ensures PersonOf(cfg, e).name != "" ==> IsCalled(cfg, e, PersonOf(cfg, e).name)
    ensures forall n :: IsCalled(cfg, e, n) ==> PersonOf(cfg, e).name == n != ""
  {
    ValuesAre(e, cfg.userAttribute);
  }

  lemma SearchNames(cfg: Config, people: seq<Entry>, dn: Dn, name: string)
    ensures LinearSearch(PeopleIn(cfg, people), dn) == Some(name) <==> dn != [] && NamesPerson(cfg, people, dn, name)
  {
    hide DnMatches, IsCalled;
    var ps := PeopleIn(cfg, people);
    SearchFinds(ps, dn, name);
    forall k | 0 <= k < |people|
      ensures ps[k].name != "" && PARSE_DN(ps[k].dn).Some? && DnMatches(PARSE_DN(ps[k].dn).value, dn) <==>
              Meets(cfg, people[k], dn)
      ensures ps[k].name == name && name != "" <==> IsCalled(cfg, people[k], name)
    {
      PersonIs(cfg, people[k]);
      assert ps[k] == PersonOf(cfg, people[k]);
    }
    if i :| IsFirst(ps, dn, i) && ps[i].name == name {
      assert Meets(cfg, people[i], dn);
    }
    if k :| 0 <= k < |people| && Meets(cfg, people[k], dn) && IsCalled(cfg, people[k], name) &&
            forall l :: 0 <= l < k ==> !Meets(cfg, people[l], dn) {
      assert IsFirst(ps, dn, k);
    }
  }

  // ----- What a member value contributes -----

  /** The attributes members are read from, in order: the one configured, or memberUid and then member. */
  ghost predicate ReadFrom(cfg: Config, j: int, a: string) {
    if cfg.memberAttribute != "" then j == 0 && a == cfg.memberAttribute
    else (j == 0 && a == "memberUid") || (j == 1 && a == "member")
  }

  ghost predicate ParsesTo(value: string, dn: Dn) {
    PARSE_DN(value) == Some(dn) && dn != []
  }

  /** A value that is taken for a DN: of member or uniqueMember in any case; and of another attribute that is
      configured, if it parses to a name that is not empty. */
  ghost predicate TakenForDn(cfg: Config, a: string, value: string) {
    if cfg.memberAttribute == "" then a == "member"
    else EqualFold(a, "member") || EqualFold(a, "uniqueMember") || exists dn :: ParsesTo(value, dn)
  }

  /** Such a value contributes whoever the DN names, if it parses to one; any other contributes itself. */
  ghost predicate Contributes(cfg: Config, people: seq<Entry>, a: string, value: string, name: string) {
    if TakenForDn(cfg, a, value) then exists dn :: ParsesTo(value, dn) && NamesPerson(cfg, people, dn, name)
    else name == value
  }

  lemma DefaultSyntax()
    ensures !EqualFold("memberUid", "member") && !EqualFold("memberUid", "uniqueMember")
    ensures EqualFold("member", "member")
  {
    SameAsItself("member");
  }

  lemma DnOfValue(cfg: Config, j: int, a: string, value: string)
    requires ReadFrom(cfg, j, a)
    ensures MemberDn(cfg, a, value).Some? <==> TakenForDn(cfg, a, value)
    ensures MemberDn(cfg, a, value).Some? ==>
              forall dn :: ParsesTo(value, dn) <==> dn == MemberDn(cfg, a, value).value != []
  {
    hide EqualFold;
    DefaultSyntax();
    if PARSE_DN(value).Some? && PARSE_DN(value).value != [] {
      assert ParsesTo(value, PARSE_DN(value).value);
    }
  }

  lemma MeansIs(cfg: Config, people: seq<Entry>, j: int, a: string, value: string, name: string)
    requires ReadFrom(cfg, j, a)
    ensures Means(cfg, PeopleIn(cfg, people), a, value) == Some(name) <==> Contributes(cfg, people, a, value, name)
  {
    hide MemberDn, TakenForDn, ReadFrom, PeopleIn;
    DnOfValue(cfg, j, a, value);
    if MemberDn(cfg, a, value).Some? {
      SearchNames(cfg, people, MemberDn(cfg, a, value).value, name);
    }
  }

  // ----- Where members stand -----

  /** Where a value stands: in which entry, in which attribute of those read, and in which place there. */
  datatype Place = Place(entry: nat, attr: nat, value: nat)

  predicate Before(p: Place, q: Place) {
    p.entry < q.entry ||
    (p.entry == q.entry && (p.attr < q.attr || (p.attr == q.attr && p.value < q.value)))
  }

  ghost predicate StandsAt(cfg: Config, es: seq<Entry>, p: Place, a: string, v: string) {
    p.entry < |es| && ReadFrom(cfg, p.attr, a) && ValueAt(es[p.entry], a, p.value, v)
  }

  /** Values and attributes, each with where it stands, in order; and none left out of the first `n` entries. */
  ghost predicate InPlace(cfg: Config, es: seq<Entry>, n: nat, occs: seq<(string, string)>, ps: seq<Place>) {
    && |occs| == |ps|
    && (forall t :: 0 <= t < |ps| ==> ps[t].entry < n && StandsAt(cfg, es, ps[t], occs[t].0, occs[t].1))
    && (forall t, u :: 0 <= t < u < |ps| ==> Before(ps[t], ps[u]))
    && (forall p: Place, a, v :: p.entry < n && StandsAt(cfg, es, p, a, v) ==> p in ps)
  }

  function InAttribute(i: nat, j: nat, n: nat): seq<Place> {
    seq(n, k requires 0 <= k < n => Place(i, j, k))
  }

  function InEntry(cfg: Config, i: nat, e: Entry): seq<Place> {
    if cfg.memberAttribute != "" then InAttribute(i, 0, |FirstValues(e.attributes, cfg.memberAttribute)|)
    else InAttribute(i, 0, |FirstValues(e.attributes, "memberUid")|) +
         InAttribute(i, 1, |FirstValues(e.attributes, "member")|)
  }

  /** What one entry gives, value by value. */
  ghost predicate EntryInPlace(cfg: Config, es: seq<Entry>, i: nat, occs: seq<(string, string)>, ps: seq<Place>) {
    && |occs| == |ps|
    && (forall t :: 0 <= t < |ps| ==> ps[t].entry == i && StandsAt(cfg, es, ps[t], occs[t].0, occs[t].1))
    && (forall t, u :: 0 <= t < u < |ps| ==> Before(ps[t], ps[u]))
    && (forall p: Place, a, v :: p.entry == i && StandsAt(cfg, es, p, a, v) ==> p in ps)
  }

  lemma ValuesOfEntry(cfg: Config, e: Entry)
    ensures ValuesIn(e.attributes, MemberAttributes(cfg)) ==
            if cfg.memberAttribute != "" then Pairs(cfg.memberAttribute, FirstValues(e.attributes, cfg.memberAttribute))
            else Pairs("memberUid", FirstValues(e.attributes, "memberUid")) +
                 Pairs("member", FirstValues(e.attributes, "member"))
  {
    hide FirstValues;
    if cfg.memberAttribute != "" {
      OneAttribute(e.attributes, cfg.memberAttribute);
    } else {
      OneAttribute(e.attributes, "memberUid");
      assert ["memberUid", "member"][..1] == ["memberUid"];
    }
  }

  lemma OneAttribute(attrs: seq<Attribute>, a: string)
    ensures ValuesIn(attrs, [a]) == Pairs(a, FirstValues(attrs, a))
  {
    hide FirstValues;
    assert [a][..0] == [];
  }

  /** What one attribute of an entry gives, value by value. */
  ghost predicate AttributeInPlace(
      cfg: Config, es: seq<Entry>, i: nat, j: nat, occs: seq<(string, string)>, ps: seq<Place>)
  {
    && |occs| == |ps|
    && (forall t :: 0 <= t < |ps| ==> ps[t] == Place(i, j, t) && StandsAt(cfg, es, ps[t], occs[t].0, occs[t].1))
    && (forall p: Place, a, v :: p.entry == i && p.attr == j && StandsAt(cfg, es, p, a, v) ==> p in ps)
  }

  lemma PlacesOfEntry(cfg: Config, es: seq<Entry>, i: nat)
    requires i < |es|
    ensures EntryInPlace(cfg, es, i, ValuesIn(es[i].attributes, MemberAttributes(cfg)), InEntry(cfg, i, es[i]))
  {
    hide FirstValues, ValuesIn, StandsAt, AttributeInPlace, EntryInPlace;
    var e := es[i];
    ValuesOfEntry(cfg, e);
    PlacesOfAttributes(cfg, es, i);
    if cfg.memberAttribute != "" {
      var vs := FirstValues(e.attributes, cfg.memberAttribute);
      OneInPlace(cfg, es, i, Pairs(cfg.memberAttribute, vs), InAttribute(i, 0, |vs|));
    } else {
      var vs, ws := FirstValues(e.attributes, "memberUid"), FirstValues(e.attributes, "member");
      TwoInPlace(cfg, es, i, Pairs("memberUid", vs), InAttribute(i, 0, |vs|), Pairs("member", ws),
                 InAttribute(i, 1, |ws|));
    }
  }

  lemma PlacesOfAttributes(cfg: Config, es: seq<Entry>, i: nat)
    requires i < |es|
    ensures forall j: nat, a :: ReadFrom(cfg, j, a) ==>
              var vs := FirstValues(es[i].attributes, a);
              AttributeInPlace(cfg, es, i, j, Pairs(a, vs), InAttribute(i, j, |vs|))
  {
    hide FirstValues, ValueAt;
    forall j: nat, a | ReadFrom(cfg, j, a)
      ensures var vs := FirstValues(es[i].attributes, a);
              AttributeInPlace(cfg, es, i, j, Pairs(a, vs), InAttribute(i, j, |vs|))
    {
      ValuesAre(es[i], a);
      var ps := InAttribute(i, j, |FirstValues(es[i].attributes, a)|);
      forall p: Place, b, v | p.entry == i && p.attr == j && StandsAt(cfg, es, p, b, v) ensures p in ps {
        assert ps[p.value] == p;
      }
    }
  }

  lemma OneInPlace(cfg: Config, es: seq<Entry>, i: nat, occs: seq<(string, string)>, ps: seq<Place>)
    requires cfg.memberAttribute != "" && AttributeInPlace(cfg, es, i, 0, occs, ps)
    ensures EntryInPlace(cfg, es, i, occs, ps)
  {
    hide ValueAt;
  }

  lemma TwoInPlace(
      cfg: Config, es: seq<Entry>, i: nat, occs: seq<(string, string)>, ps: seq<Place>, more: seq<(string, string)>,
        at: seq<Place>)
    requires cfg.memberAttribute == ""
    requires AttributeInPlace(cfg, es, i, 0, occs, ps) && AttributeInPlace(cfg, es, i, 1, more, at)
    ensures EntryInPlace(cfg, es, i, occs + more, ps + at)
  {
    hide StandsAt;
    var all, both := ps + at, occs + more;
    NoThird(cfg, es);
    forall t | 0 <= t < |all| ensures all[t].entry == i && StandsAt(cfg, es, all[t], both[t].0, both[t].1) {
      assert if t < |ps| then all[t] == ps[t] && both[t] == occs[t]
             else all[t] == at[t - |ps|] && both[t] == more[t - |ps|];
    }
    forall t, u | 0 <= t < u < |all| ensures Before(all[t], all[u]) {
      assert all[t] == if t < |ps| then Place(i, 0, t) else Place(i, 1, t - |ps|);
      assert all[u] == if u < |ps| then Place(i, 0, u) else Place(i, 1, u - |ps|);
    }
  }

  lemma NoThird(cfg: Config, es: seq<Entry>)
    ensures forall p, a, v :: StandsAt(cfg, es, p, a, v) ==> p.attr == 0 || p.attr == 1
  {
    hide ValueAt;
  }

  function PlacesIn(cfg: Config, es: seq<Entry>): seq<Place> {
    if es == [] then [] else
      PlacesIn(cfg, es[..|es| - 1]) + InEntry(cfg, |es| - 1, es[|es| - 1])
  }

  lemma {:induction false} AllInPlace(cfg: Config, es: seq<Entry>, n: nat)
    requires n <= |es|
    ensures InPlace(cfg, es, n, Occurrences(es[..n], MemberAttributes(cfg)), PlacesIn(cfg, es[..n]))
  {
    hide StandsAt, InEntry, ValuesIn, InPlace, EntryInPlace, Occurrences, PlacesIn;
    if n == 0 {
      NoPlaces(cfg, es);
    } else {
      AllInPlace(cfg, es, n - 1);
      PlacesOfEntry(cfg, es, n - 1);
      PlacesSnoc(cfg, es, n - 1);
      OccurrencesStep(es, MemberAttributes(cfg), n - 1);
      InPlaceSnoc(cfg, es, n - 1, Occurrences(es[..n - 1], MemberAttributes(cfg)), PlacesIn(cfg, es[..n - 1]),
                  ValuesIn(es[n - 1].attributes, MemberAttributes(cfg)), InEntry(cfg, n - 1, es[n - 1]));
    }
  }

  lemma NoPlaces(cfg: Config, es: seq<Entry>)
    ensures InPlace(cfg, es, 0, Occurrences(es[..0], MemberAttributes(cfg)), PlacesIn(cfg, es[..0]))
  {}

  lemma PlacesSnoc(cfg: Config, es: seq<Entry>, n: nat)
    requires n < |es|
    ensures PlacesIn(cfg, es[..n + 1]) == PlacesIn(cfg, es[..n]) + InEntry(cfg, n, es[n])
  {
    assert es[..n + 1][..n] == es[..n];
  }

  lemma InPlaceSnoc(
      cfg: Config, es: seq<Entry>, n: nat, occs: seq<(string, string)>, ps: seq<Place>, more: seq<(string, string)>,
      at: seq<Place>)
    requires InPlace(cfg, es, n, occs, ps) && EntryInPlace(cfg, es, n, more, at)
    ensures InPlace(cfg, es, n + 1, occs + more, ps + at)
  {
    hide StandsAt;
    var all, both := ps + at, occs + more;
    forall t | 0 <= t < |all| ensures all[t].entry < n + 1 && StandsAt(cfg, es, all[t], both[t].0, both[t].1) {
      assert t >= |ps| ==> all[t] == at[t - |ps|] && both[t] == more[t - |ps|];
    }
    forall t, u | 0 <= t < u < |all| ensures Before(all[t], all[u]) {
      if t >= |ps| {
        assert Before(at[t - |ps|], at[u - |ps|]);
      } else if u >= |ps| {
        assert ps[t].entry < n && at[u - |ps|].entry == n;
      } else {
        assert Before(ps[t], ps[u]);
      }
    }
    forall p: Place, a, v | p.entry < n + 1 && StandsAt(cfg, es, p, a, v) ensures p in all {
      assert p.entry < n ==> p in ps;
      assert p.entry == n ==> p in at;
    }
  }

  // ----- Who the members are -----

  /** Somebody is contributed by the value that stands at `p`. */
  ghost predicate MemberAt(cfg: Config, people: seq<Entry>, es: seq<Entry>, p: Place, name: string) {
    exists a, v :: StandsAt(cfg, es, p, a, v) && Contributes(cfg, people, a, v, name)
  }

  /** The occurrences that contribute. */
  ghost function HeardAt(cfg: Config, people: seq<Person>, occs: seq<(string, string)>): seq<nat> {
    if occs == [] then [] else
      var last := occs[|occs| - 1];
      HeardAt(cfg, people, occs[..|occs| - 1]) +
      if Means(cfg, people, last.0, last.1).Some? then [|occs| - 1] else []
  }

  lemma {:induction false} HeardFrom(cfg: Config, people: seq<Person>, occs: seq<(string, string)>)
    ensures var at, names := HeardAt(cfg, people, occs), Heard(cfg, people, occs);
            && |at| == |names|
            && (forall t :: 0 <= t < |at| ==>
                  at[t] < |occs| && Means(cfg, people, occs[at[t]].0, occs[at[t]].1) == Some(names[t]))
            && (forall t, u :: 0 <= t < u < |at| ==> at[t] < at[u])
            && (forall u: nat :: u < |occs| && Means(cfg, people, occs[u].0, occs[u].1).Some? ==> u in at)
  {
    hide Means;
    if occs != [] {
      HeardFrom(cfg, people, occs[..|occs| - 1]);
    }
  }

  ghost predicate ComesFirst(cfg: Config, people: seq<Entry>, es: seq<Entry>, x: string, y: string) {
    exists p :: MemberAt(cfg, people, es, p, x) && forall q :: MemberAt(cfg, people, es, q, y) ==> Before(p, q)
  }

  /** Of the names heard, each with the place it is contributed from, in order, none left out. */
  ghost predicate HeardInPlace(cfg: Config, people: seq<Entry>, es: seq<Entry>, names: seq<string>, ps: seq<Place>) {
    && |names| == |ps|
    && (forall t :: 0 <= t < |ps| ==> MemberAt(cfg, people, es, ps[t], names[t]))
    && (forall t, u :: 0 <= t < u < |ps| ==> Before(ps[t], ps[u]))
    && (forall p, x :: MemberAt(cfg, people, es, p, x) ==> exists t :: 0 <= t < |ps| && ps[t] == p && names[t] == x)
  }

  lemma OneAtPlace(cfg: Config, people: seq<Entry>, es: seq<Entry>, p: Place, a: string, v: string)
    requires StandsAt(cfg, es, p, a, v)
    ensures forall b, w :: StandsAt(cfg, es, p, b, w) ==> b == a && w == v
  {
    ValuesAre(es[p.entry], a);
  }

  /** For every occurrence, meaning somebody is contributing them. */
  ghost predicate MeansAll(cfg: Config, people: seq<Entry>, occs: seq<(string, string)>) {
    forall u: nat, x {:trigger Contributes(cfg, people, occs[u].0, occs[u].1, x)} :: u < |occs| ==>
      (Means(cfg, PeopleIn(cfg, people), occs[u].0, occs[u].1) == Some(x) <==>
       Contributes(cfg, people, occs[u].0, occs[u].1, x))
  }

  lemma AllMean(cfg: Config, people: seq<Entry>, es: seq<Entry>, occs: seq<(string, string)>, all: seq<Place>)
    requires InPlace(cfg, es, |es|, occs, all)
    ensures MeansAll(cfg, people, occs)
  {
    hide Means, StandsAt, Contributes, PeopleIn, ReadFrom;
    forall u: nat, x | u < |occs|
      ensures Means(cfg, PeopleIn(cfg, people), occs[u].0, occs[u].1) == Some(x) <==>
              Contributes(cfg, people, occs[u].0, occs[u].1, x)
    {
      ReadThere(cfg, es, all[u], occs[u].0, occs[u].1);
      MeansIs(cfg, people, all[u].attr, occs[u].0, occs[u].1, x);
    }
  }

  lemma PlacesHeard(cfg: Config, people: seq<Entry>, es: seq<Entry>) returns (ps: seq<Place>)
    ensures HeardInPlace(cfg, people, es, Heard(cfg, PeopleIn(cfg, people), Occurrences(es, MemberAttributes(cfg))), ps)
  {
    hide Means, StandsAt, Contributes, PeopleIn, Occurrences, PlacesIn, HeardAt, Heard, ReadFrom, MeansAll, MemberAt;
    var known, occs := PeopleIn(cfg, people), Occurrences(es, MemberAttributes(cfg));
    var all, at := PlacesIn(cfg, es), HeardAt(cfg, known, occs);
    AllInPlace(cfg, es, |es|);
    assert es[..|es|] == es;
    HeardFrom(cfg, known, occs);
    AllMean(cfg, people, es, occs, all);
    var names := Heard(cfg, known, occs);
    ps := seq(|at|, t requires 0 <= t < |at| && at[t] < |all| => all[at[t]]);
    forall t | 0 <= t < |ps| ensures MemberAt(cfg, people, es, ps[t], names[t]) {
      HeardIsMember(cfg, people, es, occs, all, at[t], names[t]);
    }
    forall p, x | MemberAt(cfg, people, es, p, x) ensures exists t :: 0 <= t < |ps| && ps[t] == p && names[t] == x {
      var u := MemberIsHeard(cfg, people, es, occs, all, p, x);
      assert u in at;
      var t :| 0 <= t < |at| && at[t] == u;
      assert ps[t] == p && names[t] == x;
    }
  }

  lemma HeardIsMember(
      cfg: Config, people: seq<Entry>, es: seq<Entry>, occs: seq<(string, string)>, all: seq<Place>, u: nat, x: string)
    requires InPlace(cfg, es, |es|, occs, all) && MeansAll(cfg, people, occs) && u < |occs|
    requires Means(cfg, PeopleIn(cfg, people), occs[u].0, occs[u].1) == Some(x)
    ensures MemberAt(cfg, people, es, all[u], x)
  {
    hide Means, StandsAt, Contributes, PeopleIn;
    assert Contributes(cfg, people, occs[u].0, occs[u].1, x);
  }

  lemma MemberIsHeard(
      cfg: Config, people: seq<Entry>, es: seq<Entry>, occs: seq<(string, string)>, all: seq<Place>, p: Place,
        x: string)
    returns (u: nat)
    requires InPlace(cfg, es, |es|, occs, all) && MeansAll(cfg, people, occs) && MemberAt(cfg, people, es, p, x)
    ensures u < |occs| == |all| && all[u] == p
    ensures Means(cfg, PeopleIn(cfg, people), occs[u].0, occs[u].1) == Some(x)
  {
    hide Means, StandsAt, Contributes, PeopleIn;
    var a, v :| StandsAt(cfg, es, p, a, v) && Contributes(cfg, people, a, v, x);
    InRange(cfg, es, p, a, v);
    u :| u < |all| && all[u] == p;
    OneAtPlace(cfg, people, es, p, a, v);
    assert occs[u] == (a, v);
    assert Contributes(cfg, people, occs[u].0, occs[u].1, x);
  }

  lemma ReadThere(cfg: Config, es: seq<Entry>, p: Place, a: string, v: string)
    requires StandsAt(cfg, es, p, a, v)
    ensures ReadFrom(cfg, p.attr, a)
  {}

  lemma InRange(cfg: Config, es: seq<Entry>, p: Place, a: string, v: string)
    requires StandsAt(cfg, es, p, a, v)
    ensures p.entry < |es|
  {}

  /** The people as they are, or nobody while they cannot be asked. */
  ghost function PeopleThere(people: Result<seq<Entry>>): seq<Entry> {
    if people.Ok? then people.value else []
  }

  /** The members some entries give: somebody exactly if a value of an attribute read contributes them; each once; in
      order of where they are first contributed, entry by entry, attribute by attribute and value by value. */
  lemma MembersAre(cfg: Config, people: Result<seq<Entry>>, es: seq<Entry>, x: string)
    ensures var r := MembersAmong(cfg, people, Occurrences(es, MemberAttributes(cfg)));
            r.Ok? ==>
              && (x in r.value <==> exists p :: MemberAt(cfg, PeopleThere(people), es, p, x))
              && NoRepeats(r.value)
              && forall m, n :: 0 <= m < n < |r.value| ==>
                   ComesFirst(cfg, PeopleThere(people), es, r.value[m], r.value[n])
  {
    hide Means, MemberAt, Occurrences, PeopleIn, Heard, ComesFirst;
    var there := PeopleThere(people);
    KnownThere(cfg, people);
    var ps := PlacesHeard(cfg, there, es);
    var names := Heard(cfg, PeopleIn(cfg, there), Occurrences(es, MemberAttributes(cfg)));
    DedupMeaning(names);
    var vs := Dedup(names);
    forall a, b | 0 <= a < b < |vs| ensures ComesFirst(cfg, there, es, vs[a], vs[b]) {
      HeardOrder(cfg, there, es, names, ps, vs[a], vs[b]);
    }
    if x in names {
      var t :| 0 <= t < |names| && names[t] == x;
      assert MemberAt(cfg, there, es, ps[t], x);
    }
  }

  lemma KnownThere(cfg: Config, people: Result<seq<Entry>>)
    ensures Known(cfg, people) == PeopleIn(cfg, PeopleThere(people))
  {}

  lemma HeardOrder(
      cfg: Config, people: seq<Entry>, es: seq<Entry>, names: seq<string>, ps: seq<Place>, x: string, y: string)
    requires HeardInPlace(cfg, people, es, names, ps)
    requires x in names && y in names && FirstIndex(names, x) < FirstIndex(names, y)
    ensures ComesFirst(cfg, people, es, x, y)
  {
    hide MemberAt;
    var a := FirstIndex(names, x);
    assert MemberAt(cfg, people, es, ps[a], x);
    forall q | MemberAt(cfg, people, es, q, y) ensures Before(ps[a], q) {
      var t :| 0 <= t < |ps| && ps[t] == q && names[t] == y;
    }
  }

  // ----- The questions -----

  /** Members: missing exactly when nothing is found; the failure of the people search exactly when a value read is
      taken for a DN and that search fails; and otherwise as the entries found say. */
  lemma MembersMeaning(cfg: Config, dir: Directory, group: string, x: string)
    requires dir.groups.Ok?
    ensures var found := Found(cfg, dir, dir.groups.value, group);
            var r := MembersOf(cfg, dir, group);
            && (found == [] ==> r == Err(NoSuchGroup))
            && (found != [] && dir.people.Err? && AnyDnIn(cfg, found) ==> r == Err(dir.people.error))
            && (found != [] && (dir.people.Ok? || !AnyDnIn(cfg, found)) ==>
                  && r.Ok?
                  && (x in r.value <==> exists p :: MemberAt(cfg, PeopleThere(dir.people), found, p, x))
                  && forall m, n :: 0 <= m < n < |r.value| ==>
                       ComesFirst(cfg, PeopleThere(dir.people), found, r.value[m], r.value[n]))
  {
    hide Found, Occurrences, MemberAt, ComesFirst, AnyDnIn, HasDn, Heard;
    var found := Found(cfg, dir, dir.groups.value, group);
    MembersAre(cfg, dir.people, found, x);
    DnsAre(cfg, found);
  }

  ghost predicate AnyDnIn(cfg: Config, es: seq<Entry>) {
    exists p, a, v :: StandsAt(cfg, es, p, a, v) && TakenForDn(cfg, a, v)
  }

  lemma DnsAre(cfg: Config, es: seq<Entry>)
    ensures HasDn(cfg, Occurrences(es, MemberAttributes(cfg))) <==> AnyDnIn(cfg, es)
  {
    hide MemberDn, TakenForDn, Occurrences, PlacesIn, StandsAt, ReadFrom;
    var occs, all := Occurrences(es, MemberAttributes(cfg)), PlacesIn(cfg, es);
    AllInPlace(cfg, es, |es|);
    assert es[..|es|] == es;
    forall u | 0 <= u < |occs|
      ensures MemberDn(cfg, occs[u].0, occs[u].1).Some? <==> TakenForDn(cfg, occs[u].0, occs[u].1)
    {
      ReadThere(cfg, es, all[u], occs[u].0, occs[u].1);
      DnOfValue(cfg, all[u].attr, occs[u].0, occs[u].1);
    }
    if p, a, v :| StandsAt(cfg, es, p, a, v) && TakenForDn(cfg, a, v) {
      InRange(cfg, es, p, a, v);
      var u :| 0 <= u < |all| && all[u] == p;
      OneAtPlace(cfg, [], es, p, a, v);
      assert occs[u] == (a, v);
    }
  }

  /** The members of a group read in bulk, likewise, of what the one search returned of the entries filed. */
  lemma BulkMembersMeaning(cfg: Config, dir: Directory, folded: string, x: string)
    requires dir.groups.Ok?
    ensures var read := ReadOf(cfg, dir, folded);
            var r := DataOf(cfg, dir, folded);
            && (r.Err? <==> dir.people.Err? && AnyDnIn(cfg, read))
            && (r.Err? ==> r == Err(dir.people.error))
            && (r.Ok? ==>
                  && (x in r.value.members <==> exists p :: MemberAt(cfg, PeopleThere(dir.people), read, p, x))
                  && forall m, n :: 0 <= m < n < |r.value.members| ==>
                       ComesFirst(cfg, PeopleThere(dir.people), read, r.value.members[m], r.value.members[n]))
  {
    hide ReadOf, Occurrences, MemberAt, ComesFirst, AnyDnIn, HasDn, Heard, CopiedFrom;
    var read := ReadOf(cfg, dir, folded);
    MembersAre(cfg, dir.people, read, x);
    DnsAre(cfg, read);
  }

  /** The groups listed: every value, at any place, of the naming attribute where an entry first spells it as
      configured; each once, sorted. */
  lemma ListedMeaning(cfg: Config, dir: Directory, name: string)
    requires dir.groups.Ok?
    ensures var es := dir.groups.value;
            var r := NamesListed(cfg, dir);
            && r.Ok? && Sorted(StringLe, r.value) && NoRepeats(r.value)
            && (name in r.value <==>
                exists i, k :: 0 <= i < |es| && ValueAt(es[i], cfg.groupAttribute, k, name))
  {
    hide ValueAt, StringLe;
    var es := dir.groups.value;
    StringTotalOrder();
    SortedSetMeaning(StringLe, AllNames(cfg, es));
    InAllNames(cfg, es, name);
    forall i | 0 <= i < |es|
      ensures name in NamesOf(cfg, es[i]) <==> exists k :: ValueAt(es[i], cfg.groupAttribute, k, name)
    {
      ValuesAre(es[i], cfg.groupAttribute);
    }
  }
}
