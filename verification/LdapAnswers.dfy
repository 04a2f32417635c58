/** What a search returns stands for what the entries hold, for everything that was asked for. */
module LdapAnswers {
  import opened Basics
  import opened Folding
  import opened AttributeNames
  import opened AttributeLists
  import opened LdapCopied
  import opened LdapGroups

  // ----- Asking for more attributes does not change the ones asked for -----

  /** An attribute that a search for these returns, however little else it returns. */
  ghost predicate Covered(want: seq<string>, name: string) {
    exists i :: 0 <= i < |want| && (want[i] == name || (IsAscii(want[i]) && SameDescription(want[i], name)))
  }

  lemma CoveredIsSelected(sel: Selection, want: seq<string>, name: string)
    requires Covered(want, name)
    ensures exists i :: 0 <= i < |want| && sel(want[i], name)
  {
    hide SameDescription;
    var i :| 0 <= i < |want| && (want[i] == name || (IsAscii(want[i]) && SameDescription(want[i], name)));
    assert sel(want[i], name);
  }

  lemma EquivalentIsSelected(sel: Selection, want: seq<string>, name: string, n: string)
    requires Covered(want, name) && IsAscii(name) && SameDescription(n, name)
    ensures exists i :: 0 <= i < |want| && sel(want[i], n)
  {
    hide SameDescription, IsAscii;
    var i :| 0 <= i < |want| && (want[i] == name || (IsAscii(want[i]) && SameDescription(want[i], name)));
    SameChain(want[i], name, n);
    assert sel(want[i], n);
  }

  lemma SameChain(a: string, b: string, c: string)
    requires a == b || SameDescription(a, b)
    requires SameDescription(c, b)
    ensures SameDescription(a, c)
  {
    CanonicalDecidesEquivalence(a, b);
    CanonicalDecidesEquivalence(c, b);
    CanonicalDecidesEquivalence(a, c);
  }

  lemma SameAsItself(name: string)
    ensures SameDescription(name, name)
    ensures EqualFold(name, name)
  {
    assert forall i :: 0 <= i < |name| ==> Steps(0, name[i]) == name[i];
  }

  lemma {:induction false} FirstValuesAnswered(attrs: seq<Attribute>, p: Attribute -> bool, name: string)
    requires forall a: Attribute :: a.name == name ==> p(a)
    ensures FirstValues(Filter(p, attrs), name) == FirstValues(attrs, name)
  {
    if attrs != [] {
      var init, kept := attrs[..|attrs| - 1], Filter(p, attrs);
      FirstValuesAnswered(init, p, name);
      FirstValuesLast(attrs, name);
      NamedSurvives(init, p, name);
      if p(attrs[|attrs| - 1]) {
        FirstValuesLast(kept, name);
        assert kept[..|kept| - 1] == Filter(p, init);
      } else {
        NoFirstValues(init, name);
      }
    }
  }

  lemma {:induction false} NoFirstValues(attrs: seq<Attribute>, name: string)
    ensures !HasName(attrs, name) ==> FirstValues(attrs, name) == []
  {
    if attrs != [] && !HasName(attrs, name) {
      assert attrs[0].name != name;
      forall i | 0 <= i < |attrs[1..]| ensures attrs[1..][i].name != name {
        assert attrs[1..][i] == attrs[i + 1];
      }
      NoFirstValues(attrs[1..], name);
    }
  }

  ghost predicate HasName(attrs: seq<Attribute>, name: string) {
    exists i :: 0 <= i < |attrs| && attrs[i].name == name
  }

  lemma NamedSurvives(attrs: seq<Attribute>, p: Attribute -> bool, name: string)
    requires forall a: Attribute :: a.name == name ==> p(a)
    ensures HasName(Filter(p, attrs), name) <==> HasName(attrs, name)
  {
    if i :| 0 <= i < |attrs| && attrs[i].name == name {
      assert attrs[i] in Filter(p, attrs);
    }
    if i :| 0 <= i < |Filter(p, attrs)| && Filter(p, attrs)[i].name == name {
      assert Filter(p, attrs)[i] in attrs;
    }
  }

  lemma {:induction false} FirstValuesLast(attrs: seq<Attribute>, name: string)
    requires attrs != []
    ensures var init, last := attrs[..|attrs| - 1], attrs[|attrs| - 1];
            FirstValues(attrs, name) ==
            if HasName(init, name) then FirstValues(init, name) else if last.name == name then last.values else []
  {
    var init := attrs[..|attrs| - 1];
    if |attrs| > 1 {
      var rest := attrs[1..];
      FirstValuesLast(rest, name);
      assert rest[..|rest| - 1] == init[1..];
      if attrs[0].name == name {
        assert init[0].name == name;
      } else {
        if i :| 0 <= i < |init| && init[i].name == name {
          assert init[1..][i - 1] == init[i];
        }
        if i :| 0 <= i < |init[1..]| && init[1..][i].name == name {
          assert init[i + 1] == init[1..][i];
        }
      }
    } else {
      assert attrs[1..] == [];
    }
  }

  lemma {:induction false} ValuesOfAnswered(attrs: seq<Attribute>, p: Attribute -> bool, name: string)
    requires forall a: Attribute :: SameDescription(a.name, name) ==> p(a)
    ensures ValuesOf(Filter(p, attrs), name) == ValuesOf(attrs, name)
  {
    hide SameDescription;
    if attrs != [] {
      var init, last := attrs[..|attrs| - 1], attrs[|attrs| - 1];
      ValuesOfAnswered(init, p, name);
      if p(last) {
        assert Filter(p, attrs)[..|Filter(p, attrs)| - 1] == Filter(p, init);
      }
      assert ValuesOf(init, name) + [] == ValuesOf(init, name);
    }
  }

  lemma DescriptionSymmetric(a: string, b: string)
    ensures SameDescription(a, b) == SameDescription(b, a)
  {}

  /** What is covered comes back the same, whatever else was asked for. */
  lemma AnsweredSame(sel: Selection, e: Entry, want: seq<string>, name: string)
    requires Covered(want, name)
    ensures FirstValues(Answer(sel, e, want).attributes, name) == FirstValues(e.attributes, name)
    ensures IsAscii(name) ==> ValuesOf(Answer(sel, e, want).attributes, name) == ValuesOf(e.attributes, name)
  {
    hide SameDescription, EqualFold, Covered, IsAscii;
    var p := (a: Attribute) => exists i :: 0 <= i < |want| && sel(want[i], a.name);
    CoveredIsSelected(sel, want, name);
    FirstValuesAnswered(e.attributes, p, name);
    if IsAscii(name) {
      forall a: Attribute | SameDescription(a.name, name) ensures p(a) {
        EquivalentIsSelected(sel, want, name, a.name);
      }
      ValuesOfAnswered(e.attributes, p, name);
    }
  }

  // ----- Which configurations ask for everything -----

  /** Every attribute dropped from the one search comes with another. */
  ghost predicate AllCovered(cfg: Config) {
    forall a :: a in MemberAttributes(cfg) + cfg.groupAttributes ==> Covered(WantOf(cfg), a)
  }

  lemma {:induction false} WantKeeps(want: seq<string>, more: seq<string>)
    ensures want <= WantFrom(want, more)
    ensures forall a :: a in more ==> Wanted(WantFrom(want, more), a)
    ensures forall w :: w in WantFrom(want, more) ==> w in want || w in more
  {
    hide EqualFold;
    if more != [] {
      var init, last := more[..|more| - 1], more[|more| - 1];
      WantKeeps(want, init);
      var asked := WantFrom(want, init);
      SameAsItself(last);
      forall a | Wanted(asked, a) ensures Wanted(asked + [last], a) {
        var i :| 0 <= i < |asked| && EqualFold(asked[i], a);
        assert (asked + [last])[i] == asked[i];
      }
      assert (asked + [last])[|asked|] == last;
    }
  }

  /** The naming attribute is always asked for. */
  lemma NamingCovered(cfg: Config)
    ensures Covered(WantOf(cfg), cfg.groupAttribute)
  {
    hide SameDescription;
    WantKeeps([cfg.groupAttribute], MemberAttributes(cfg) + cfg.groupAttributes);
    assert WantOf(cfg)[0] == cfg.groupAttribute;
  }

  /** Of two ASCII names that are the same, case aside, each is the same description as the other. */
  lemma AsciiFolds(a: string, b: string)
    requires IsAscii(a) && IsAscii(b) && EqualFold(a, b)
    ensures SameDescription(a, b)
  {
    forall i | 0 <= i < |a| ensures ToLower(a)[i] == ToLower(b)[i] {
      AsciiOrbit(a[i], b[i]);
    }
    assert ToLower(a) == ToLower(b);
  }

  lemma AsciiMembers(cfg: Config)
    requires IsAscii(cfg.memberAttribute)
    ensures forall a :: a in MemberAttributes(cfg) ==> IsAscii(a)
  {}

  /** A configuration in ASCII asks for everything. */
  lemma AsciiCovers(cfg: Config)
    requires IsAscii(cfg.groupAttribute) && IsAscii(cfg.memberAttribute)
    ensures AllCovered(cfg)
  {
    hide EqualFold, SameDescription, Accepts, ConfigRefusal, WantFrom, IsAscii;
    AsciiMembers(cfg);
    var more := MemberAttributes(cfg) + cfg.groupAttributes;
    WantKeeps([cfg.groupAttribute], more);
    CopiedAscii(cfg);
    forall a | a in more ensures Covered(WantOf(cfg), a) {
      var i :| 0 <= i < |WantOf(cfg)| && EqualFold(WantOf(cfg)[i], a);
      assert WantOf(cfg)[i] in WantOf(cfg);
      AsciiFolds(WantOf(cfg)[i], a);
    }
  }

  /** The attributes copied are ASCII: no others are accepted. */
  lemma CopiedAscii(cfg: Config)
    ensures forall a :: a in cfg.groupAttributes ==> IsAscii(a)
  {
    hide TakenBy;
    NamesChecked(cfg.groupAttributes, [cfg.memberAttribute, cfg.groupAttribute]);
    forall a | a in cfg.groupAttributes ensures IsAscii(a) {
      ParsesIsAscii(a);
    }
  }

  // ----- What was answered stands for what is there -----

  lemma {:induction false} ValuesInAnswered(sel: Selection, e: Entry, want: seq<string>, attrs: seq<string>)
    requires forall a :: a in attrs ==> Covered(want, a)
    ensures ValuesIn(Answer(sel, e, want).attributes, attrs) == ValuesIn(e.attributes, attrs)
  {
    hide Covered, Answer;
    if attrs != [] {
      ValuesInAnswered(sel, e, want, attrs[..|attrs| - 1]);
      AnsweredSame(sel, e, want, attrs[|attrs| - 1]);
    }
  }

  lemma {:induction false} OccurrencesAnswered(sel: Selection, es: seq<Entry>, want: seq<string>, attrs: seq<string>)
    requires forall a :: a in attrs ==> Covered(want, a)
    ensures Occurrences(Search(sel, es, want), attrs) == Occurrences(es, attrs)
  {
    hide Covered, Answer, ValuesIn;
    if es != [] {
      var init := es[..|es| - 1];
      OccurrencesAnswered(sel, init, want, attrs);
      ValuesInAnswered(sel, es[|es| - 1], want, attrs);
      assert Search(sel, es, want)[..|es| - 1] == Search(sel, init, want);
    }
  }

  lemma {:induction false} ValuesOfConcat(a: seq<Attribute>, b: seq<Attribute>, name: string)
    ensures ValuesOf(a + b, name) == ValuesOf(a, name) + ValuesOf(b, name)
  {
    hide SameDescription;
    if b == [] {
      assert a + b == a;
    } else {
      var init, last := b[..|b| - 1], b[|b| - 1];
      ValuesOfConcat(a, init, name);
      assert (a + b)[..|a + b| - 1] == a + init && (a + b)[|a + b| - 1] == last;
      Regroup(ValuesOf(a, name), ValuesOf(init, name),
              if SameDescription(last.name, name) then NonEmpty(last.values) else []);
    }
  }

  lemma MergedSnoc(es: seq<Entry>, e: Entry)
    ensures MergedAttributes(es + [e]) == MergedAttributes(es) + e.attributes
  {
    var f := (x: Entry) => x.attributes;
    assert Map(f, es + [e]) == Map(f, es) + [e.attributes];
    FlattenSnoc(Map(f, es), e.attributes);
  }

  lemma {:induction false} MergedAnswered(sel: Selection, es: seq<Entry>, want: seq<string>, name: string)
    requires Covered(want, name) && IsAscii(name)
    ensures ValuesOf(MergedAttributes(Search(sel, es, want)), name) == ValuesOf(MergedAttributes(es), name)
  {
    hide Covered, Answer, ValuesOf, MergedAttributes;
    if es == [] {
      assert Search(sel, es, want) == [];
    } else {
      var init, last := es[..|es| - 1], es[|es| - 1];
      MergedAnswered(sel, init, want, name);
      assert Search(sel, es, want) == Search(sel, init, want) + [Answer(sel, last, want)] && es == init + [last];
      MergedSnoc(init, last);
      MergedSnoc(Search(sel, init, want), Answer(sel, last, want));
      ValuesOfConcat(MergedAttributes(init), last.attributes, name);
      ValuesOfConcat(MergedAttributes(Search(sel, init, want)), Answer(sel, last, want).attributes, name);
      AnsweredSame(sel, last, want, name);
    }
  }

  lemma {:induction false} CopyListSame(a: seq<Attribute>, b: seq<Attribute>, names: seq<string>)
    requires forall n :: n in names ==> ValuesOf(a, n) == ValuesOf(b, n)
    ensures CopyList(a, names) == CopyList(b, names)
  {
    hide ValuesOf;
    if names != [] {
      CopyListSame(a, b, names[..|names| - 1]);
    }
  }

  lemma CopiedAnswered(cfg: Config, sel: Selection, es: seq<Entry>, want: seq<string>)
    requires forall n :: n in cfg.groupAttributes ==> Covered(want, n)
    ensures CopyList(MergedAttributes(Search(sel, es, want)), cfg.groupAttributes) ==
            CopyList(MergedAttributes(es), cfg.groupAttributes)
  {
    hide Covered, MergedAttributes, Search, CopyList, IsAscii;
    CopiedAscii(cfg);
    forall n | n in cfg.groupAttributes
      ensures ValuesOf(MergedAttributes(Search(sel, es, want)), n) == ValuesOf(MergedAttributes(es), n)
    {
      MergedAnswered(sel, es, want, n);
    }
    CopyListSame(MergedAttributes(Search(sel, es, want)), MergedAttributes(es), cfg.groupAttributes);
  }

  lemma NamesAnswered(cfg: Config, sel: Selection, e: Entry, want: seq<string>)
    requires Covered(want, cfg.groupAttribute)
    ensures NamesOf(cfg, Answer(sel, e, want)) == NamesOf(cfg, e)
  {
    AnsweredSame(sel, e, want, cfg.groupAttribute);
  }

  lemma {:induction false} FiledAnswered(cfg: Config, sel: Selection, es: seq<Entry>, want: seq<string>, folded: string)
    requires Covered(want, cfg.groupAttribute)
    ensures Filed(cfg, Search(sel, es, want), folded) == Search(sel, Filed(cfg, es, folded), want)
  {
    hide Covered, Answer, NamesOf;
    if es == [] {
      assert Search(sel, es, want) == [];
    } else {
      var init, last := es[..|es| - 1], es[|es| - 1];
      FiledAnswered(cfg, sel, init, want, folded);
      NamesAnswered(cfg, sel, last, want);
      assert Search(sel, es, want)[..|es| - 1] == Search(sel, init, want);
    }
  }

  lemma AllNamesAnswered(cfg: Config, sel: Selection, es: seq<Entry>, want: seq<string>)
    requires Covered(want, cfg.groupAttribute)
    ensures AllNames(cfg, Search(sel, es, want)) == AllNames(cfg, es)
  {
    hide Covered, Answer, NamesOf;
    forall i | 0 <= i < |es| ensures NamesOf(cfg, Answer(sel, es[i], want)) == NamesOf(cfg, es[i]) {
      NamesAnswered(cfg, sel, es[i], want);
    }
    var f := (e: Entry) => NamesOf(cfg, e);
    assert Map(f, Search(sel, es, want)) == Map(f, es);
  }

  lemma PeopleAnswered(cfg: Config, sel: Selection, es: seq<Entry>)
    ensures PeopleIn(cfg, Search(sel, es, [cfg.userAttribute])) == PeopleIn(cfg, es)
  {
    hide Answer, FirstValues;
    var want := [cfg.userAttribute];
    SameAsItself(cfg.userAttribute);
    assert EqualFold(want[0], cfg.userAttribute);
    forall i | 0 <= i < |es| ensures PersonOf(cfg, Answer(sel, es[i], want)) == PersonOf(cfg, es[i]) {
      AnsweredSame(sel, es[i], want, cfg.userAttribute);
      AnswerKeepsDn(sel, es[i], want);
    }
  }

  lemma AnswerKeepsDn(sel: Selection, e: Entry, want: seq<string>)
    ensures Answer(sel, e, want).dn == e.dn
  {}
}
