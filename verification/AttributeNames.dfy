/** Attribute descriptions (section 2.5 of RFC 4512): their canonical form, their equivalence, and which
    of them may be carried. */
module AttributeNames {
  import opened Basics
  import opened Ordering

  ghost predicate LowersLikeUnicode(f: char -> char) {
    forall c: char :: (c as int < 0x80 ==> f(c) == AsciiLower(c)) && (f(c) == ';' ==> c == ';')
  }

  type LowerTable = f: char -> char | LowersLikeUnicode(f) witness AsciiLower

  /** unicode.ToLower. Above ASCII nothing is known of it but that it makes no semicolons. */
  const UNICODE_LOWER: LowerTable

  /** The names refused outright, in lower case. The list itself plays no part in what is proved. */
  const RESERVED: set<string>

  const NOT_A_SECRET: set<string> := {"secretary"}

  const SECRET_FRAGMENTS: seq<string> :=
    ["password", "passwd", "pwd", "secret", "credential", "hash", "privatekey"]

  function ToLower(s: string): string {
    Map(UNICODE_LOWER, s)
  }

  /** strings.Split at semicolons. */
  function Split(s: string): (parts: seq<string>)
    ensures parts != []
  {
    if s == "" then [""]
    else
      var rest := Split(s[1..]);
      if s[0] == ';' then [""] + rest else [[s[0]] + rest[0]] + rest[1..]
  }

  function Join(parts: seq<string>): string {
    if parts == [] then ""
    else if |parts| == 1 then parts[0]
    else parts[0] + ";" + Join(parts[1..])
  }

  /** The form that equivalent descriptions share. */
  function Canonical(name: string): string {
    var parts := Split(ToLower(name));
    Join([parts[0]] + Sort(StringLe, parts[1..]))
  }

  /** The same type and the same options, compared directly. */
  predicate SameDescription(a: string, b: string) {
    var pa, pb := Split(ToLower(a)), Split(ToLower(b));
    |pa| == |pb| && pa[0] == pb[0] &&
    [pa[0]] + Sort(StringLe, pa[1..]) == [pb[0]] + Sort(StringLe, pb[1..])
  }

  /** What both of them decide: one type, and the same options in any order, case aside. */
  ghost predicate Equivalent(a: string, b: string) {
    var pa, pb := Split(ToLower(a)), Split(ToLower(b));
    pa[0] == pb[0] && multiset(pa[1..]) == multiset(pb[1..])
  }

  /** A description's type, in lower case, its options cut off. */
  function AttrType(name: string): string {
    ToLower(Split(name)[0])
  }

  // ----- Which names are carried -----

  predicate IsAlpha(c: char) { 'A' <= c <= 'Z' || 'a' <= c <= 'z' }
  predicate IsKeychar(c: char) { IsAlpha(c) || '0' <= c <= '9' || c == '-' }

  predicate IsOption(s: string) {
    s != "" && forall i :: 0 <= i < |s| ==> IsKeychar(s[i])
  }

  predicate IsKeystring(s: string) {
    IsOption(s) && IsAlpha(s[0])
  }

  predicate WellFormedParts(parts: seq<string>)
    requires parts != []
  {
    IsKeystring(parts[0]) && forall i :: 1 <= i < |parts| ==> IsOption(parts[i])
  }

  /** parseDescription, as whether it refuses. */
  predicate Parses(name: string) {
    WellFormedParts(Split(name))
  }

  predicate Contains(s: string, fragment: string) {
    fragment <= s || (s != "" && Contains(s[1..], fragment))
  }

  predicate CarriesType(lower: string) {
    lower !in RESERVED &&
    (lower in NOT_A_SECRET ||
     forall i :: 0 <= i < |SECRET_FRAGMENTS| ==> !Contains(lower, SECRET_FRAGMENTS[i]))
  }

  /** CheckAttributeName, as whether it accepts. */
  predicate Accepts(name: string) {
    Parses(name) && CarriesType(ToLower(Split(name)[0]))
  }

  predicate IsAscii(s: string) {
    forall i :: 0 <= i < |s| ==> s[i] as int < 0x80
  }

  // ----- What is refused, by position -----

  ghost predicate SliceAt(s: string, fragment: string, i: int) {
    0 <= i <= |s| - |fragment| && s[i..i + |fragment|] == fragment
  }

  /** A fragment is contained exactly when it is a slice at some position. */
  lemma {:induction false} ContainsSlice(s: string, fragment: string)
    ensures Contains(s, fragment) <==> exists i :: SliceAt(s, fragment, i)
  {
    var n := |fragment|;
    assert fragment <= s <==> SliceAt(s, fragment, 0);
    if s != "" {
      var rest := s[1..];
      ContainsSlice(rest, fragment);
      forall i | i > 0 ensures SliceAt(s, fragment, i) <==> SliceAt(rest, fragment, i - 1) {
        if i <= |s| - n {
          assert rest[i - 1..i - 1 + n] == s[i..i + n];
        }
      }
      if i :| SliceAt(rest, fragment, i) {
        assert SliceAt(s, fragment, i + 1);
      }
      if i :| SliceAt(s, fragment, i) {
        assert i > 0 ==> SliceAt(rest, fragment, i - 1);
      }
    }
  }

  /** No fragment that looks like a secret stands anywhere in a text. */
  ghost predicate LooksPublic(lower: string) {
    forall f, i :: f in {"password", "passwd", "pwd", "secret", "credential", "hash", "privatekey"} ==>
      !SliceAt(lower, f, i)
  }

  ghost predicate DescriptionParts(parts: seq<string>) {
    && parts != [] && parts[0] != "" && IsAlpha(parts[0][0])
    && (forall i :: 0 <= i < |parts| ==> parts[i] != "")
    && (forall i, j :: 0 <= i < |parts| && 0 <= j < |parts[i]| ==> IsKeychar(parts[i][j]))
  }

  /** A name is accepted exactly when it is parts joined by semicolons, first a letter followed by letters, digits and
      hyphens, then options of letters, digits and hyphens; and the first in lower case is not reserved and, but for
      "secretary", holds nothing that looks like a secret. */
  lemma AcceptsMeaning(name: string)
    ensures Accepts(name) <==>
            exists parts ::
              && DescriptionParts(parts) && Join(parts) == name && ToLower(parts[0]) !in RESERVED
              && (ToLower(parts[0]) == "secretary" || LooksPublic(ToLower(parts[0])))
  {
    hide LooksPublic, Contains, ToLower;
    JoinSplit(name);
    SecretsMeaning(ToLower(Split(name)[0]));
    if Accepts(name) {
      assert DescriptionParts(Split(name));
    }
    if parts :| DescriptionParts(parts) && Join(parts) == name && ToLower(parts[0]) !in RESERVED &&
                (ToLower(parts[0]) == "secretary" || LooksPublic(ToLower(parts[0]))) {
      forall i | 0 <= i < |parts| ensures NoSemicolon(parts[i]) {
        assert !IsKeychar(';');
      }
      SplitJoin(parts);
    }
  }

  lemma SecretsMeaning(lower: string)
    ensures (forall i :: 0 <= i < |SECRET_FRAGMENTS| ==> !Contains(lower, SECRET_FRAGMENTS[i])) <==> LooksPublic(lower)
  {
    hide Contains, SliceAt;
    forall f ensures Contains(lower, f) <==> exists i :: SliceAt(lower, f, i) {
      ContainsSlice(lower, f);
    }
    FragmentsListed();
    hide SECRET_FRAGMENTS;
    if LooksPublic(lower) {
      forall i | 0 <= i < |SECRET_FRAGMENTS| ensures !Contains(lower, SECRET_FRAGMENTS[i]) {
        assert SECRET_FRAGMENTS[i] in SECRET_FRAGMENTS;
      }
    } else {
      var f, i :| f in SECRET_FRAGMENTS && SliceAt(lower, f, i);
      var k :| 0 <= k < |SECRET_FRAGMENTS| && SECRET_FRAGMENTS[k] == f;
    }
  }

  lemma FragmentsListed()
    ensures forall f :: f in {"password", "passwd", "pwd", "secret", "credential", "hash", "privatekey"} <==>
                        f in SECRET_FRAGMENTS
  {}

  // ----- Splitting and joining are inverse -----

  lemma JoinAfterSemicolon(parts: seq<string>)
    requires parts != []
    ensures Join([""] + parts) == ";" + Join(parts)
  {
    assert ([""] + parts)[1..] == parts;
  }

  lemma JoinLonger(c: char, parts: seq<string>)
    requires parts != []
    ensures Join([[c] + parts[0]] + parts[1..]) == [c] + Join(parts)
  {
    assert ([[c] + parts[0]] + parts[1..])[1..] == parts[1..];
  }

  lemma {:induction false} JoinSplit(s: string)
    ensures Join(Split(s)) == s
  {
    if s != "" {
      JoinSplit(s[1..]);
      JoinAfterSemicolon(Split(s[1..]));
      JoinLonger(s[0], Split(s[1..]));
      assert s == [s[0]] + s[1..];
    }
  }

  ghost predicate NoSemicolon(s: string) {
    ';' !in s
  }

  lemma {:induction false} SplitParts(s: string)
    ensures forall i :: 0 <= i < |Split(s)| ==> NoSemicolon(Split(s)[i])
  {
    if s != "" {
      SplitParts(s[1..]);
    }
  }

  lemma {:induction false} SplitOfPlain(s: string)
    requires NoSemicolon(s)
    ensures Split(s) == [s]
  {
    if s != "" {
      SplitOfPlain(s[1..]);
      assert s == [s[0]] + s[1..];
    }
  }

  lemma {:induction false} SplitAtSemicolon(p: string, s: string)
    requires NoSemicolon(p)
    ensures Split(p + ";" + s) == [p] + Split(s)
  {
    var whole := p + ";" + s;
    if p == "" {
      assert whole[1..] == s;
    } else {
      assert whole[1..] == p[1..] + ";" + s;
      SplitAtSemicolon(p[1..], s);
      assert p == [p[0]] + p[1..];
    }
  }

  lemma {:induction false} SplitJoin(parts: seq<string>)
    requires parts != []
    requires forall i :: 0 <= i < |parts| ==> NoSemicolon(parts[i])
    ensures Split(Join(parts)) == parts
  {
    if |parts| == 1 {
      SplitOfPlain(parts[0]);
    } else {
      SplitJoin(parts[1..]);
      SplitAtSemicolon(parts[0], Join(parts[1..]));
      assert parts == [parts[0]] + parts[1..];
    }
  }

  // ----- The canonical form decides equivalence -----

  lemma SplitCanonical(name: string)
    ensures var parts := Split(ToLower(name));
            Split(Canonical(name)) == [parts[0]] + Sort(StringLe, parts[1..])
  {
    var parts := Split(ToLower(name));
    SplitParts(ToLower(name));
    var sorted := Sort(StringLe, parts[1..]);
    SameMembers(sorted, parts[1..]);
    forall i | 0 <= i < |sorted| ensures NoSemicolon(sorted[i]) {
      assert sorted[i] in parts[1..];
    }
    SplitJoin([parts[0]] + sorted);
  }

  /** The two comparisons the code makes, written apart, agree with each other and with section 2.5 of RFC 4512. */
  lemma CanonicalDecidesEquivalence(a: string, b: string)
    ensures Canonical(a) == Canonical(b) <==> Equivalent(a, b)
    ensures SameDescription(a, b) <==> Equivalent(a, b)
  {
    var pa, pb := Split(ToLower(a)), Split(ToLower(b));
    var sa, sb := [pa[0]] + Sort(StringLe, pa[1..]), [pb[0]] + Sort(StringLe, pb[1..]);
    StringTotalOrder();
    SortEqual(StringLe, pa[1..], pb[1..]);
    SplitCanonical(a);
    SplitCanonical(b);
    assert sa[1..] == Sort(StringLe, pa[1..]) && sb[1..] == Sort(StringLe, pb[1..]);
    assert sa == sb ==> sa[0] == sb[0] && sa[1..] == sb[1..];
    if Equivalent(a, b) {
      SameMembers(pa[1..], pb[1..]);
    }
  }

  lemma {:induction false} SplitLower(s: string)
    ensures |Split(ToLower(s))| == |Split(s)|
    ensures forall i :: 0 <= i < |Split(s)| ==> Split(ToLower(s))[i] == ToLower(Split(s)[i])
  {
    if s != "" {
      SplitLower(s[1..]);
      assert ToLower(s)[0] == UNICODE_LOWER(s[0]);
      assert ToLower(s)[1..] == ToLower(s[1..]);
    }
  }

  /** Equivalent descriptions have one type. */
  lemma EquivalentTypes(a: string, b: string)
    requires Equivalent(a, b)
    ensures AttrType(a) == AttrType(b)
  {
    SplitLower(a);
    SplitLower(b);
  }

  // ----- Equivalent ASCII names are carried or refused together -----

  ghost predicate AllAscii(parts: seq<string>) {
    forall i :: 0 <= i < |parts| ==> IsAscii(parts[i])
  }

  lemma {:induction false} AsciiParts(s: string)
    ensures IsAscii(s) <==> AllAscii(Split(s))
  {
    if s != "" {
      AsciiParts(s[1..]);
      var parts, rest := Split(s), Split(s[1..]);
      assert IsAscii(s) <==> (s[0] as int) < 0x80 && IsAscii(s[1..]) by {
        assert s == [s[0]] + s[1..];
      }
      if s[0] == ';' {
        assert parts[1..] == rest && parts == [""] + rest;
        assert AllAscii(parts) ==> AllAscii(parts[1..]);
      } else {
        assert parts == [[s[0]] + rest[0]] + rest[1..];
        assert parts[0][1..] == rest[0] && parts[1..] == rest[1..] && parts[0][0] == s[0];
        if AllAscii(parts) {
          assert IsAscii(parts[0]) && AllAscii(parts[1..]);
          assert IsAscii(parts[0][1..]);
          assert AllAscii([rest[0]] + rest[1..]) && rest == [rest[0]] + rest[1..];
        }
        if AllAscii(rest) {
          assert IsAscii(rest[0]) && AllAscii(rest[1..]);
        }
      }
    }
  }

  lemma LowerKeepsShape(s: string)
    requires IsAscii(s)
    ensures IsOption(ToLower(s)) <==> IsOption(s)
    ensures IsKeystring(ToLower(s)) <==> IsKeystring(s)
  {
    forall i | 0 <= i < |s|
      ensures IsKeychar(ToLower(s)[i]) == IsKeychar(s[i]) && IsAlpha(ToLower(s)[i]) == IsAlpha(s[i])
    {
      assert ToLower(s)[i] == AsciiLower(s[i]);
    }
  }

  lemma LowerKeepsParsing(s: string)
    requires IsAscii(s)
    ensures Parses(s) <==> WellFormedParts(Split(ToLower(s)))
  {
    SplitLower(s);
    AsciiParts(s);
    var parts, lower := Split(s), Split(ToLower(s));
    forall i | 0 <= i < |parts|
      ensures IsOption(lower[i]) == IsOption(parts[i]) && IsKeystring(lower[i]) == IsKeystring(parts[i])
    {
      LowerKeepsShape(parts[i]);
    }
  }

  lemma ParsesIsAscii(s: string)
    requires Parses(s)
    ensures IsAscii(s)
  {
    AsciiParts(s);
    forall i | 0 <= i < |Split(s)| ensures IsAscii(Split(s)[i]) {
      assert IsOption(Split(s)[i]);
    }
  }

  /** Of two equivalent names, one of them accepted, the other is accepted exactly when it is ASCII. */
  lemma EquivalentNamesAccepted(a: string, b: string)
    requires Equivalent(a, b) && Accepts(a)
    ensures Accepts(b) <==> IsAscii(b)
  {
    if IsAscii(b) {
      ParsesIsAscii(a);
      LowerKeepsParsing(a);
      LowerKeepsParsing(b);
      SplitLower(a);
      SplitLower(b);
      var pa, pb := Split(ToLower(a)), Split(ToLower(b));
      SameMembers(pa[1..], pb[1..]);
      forall i | 1 <= i < |pb| ensures IsOption(pb[i]) {
        assert pb[i] == pb[1..][i - 1];
        assert pb[i] in pa[1..];
      }
    }
    if Accepts(b) {
      ParsesIsAscii(b);
    }
  }

  /** The Kelvin sign lowers to the letter k, so it is equivalent to a name that is carried; and it is not ASCII. */
  lemma KelvinSignParts(kelvin: string)
    requires kelvin == "\U{212A}" && UNICODE_LOWER(kelvin[0]) == 'k' && "k" !in RESERVED
    ensures Equivalent("k", kelvin) && Accepts("k") && !Accepts(kelvin)
  {
    assert ToLower(kelvin) == "k" == ToLower("k");
    SplitOfPlain("k");
    SplitOfPlain(kelvin);
    assert !IsAscii(kelvin) && IsOption("k");
    forall i | 0 <= i < |SECRET_FRAGMENTS| ensures !Contains("k", SECRET_FRAGMENTS[i]) {
      assert |SECRET_FRAGMENTS[i]| > 1;
      assert "k"[1..] == "";
    }
    assert Accepts("k");
    EquivalentNamesAccepted("k", kelvin);
  }
}
