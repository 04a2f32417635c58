# Several sources of people and groups, read as one

The repository reads people and groups from files, databases and LDAP directories and answers questions about
them as if they were one directory. In several places it holds a fast form that must answer exactly as a simple
one would: a byte string instead of a comparison of distinguished names, an index instead of a linear search, one
pass over all groups instead of three questions for each, a frozen copy instead of the sources. This project
models those forms, the simple ones they stand for, and proves that they agree, and where they do not, exactly
when. Beside them it models the merging and nesting of sets, the attribute lists, the NT hash, and the password
check by LDAP bind as a machine that the caller, the network and the server all move.

`dafny verify dfyconfig.toml` checks everything.

## How it is laid out

| file | what it holds |
|---|---|
| `Basics`, `Ordering`, `Faults` | results, first-appearance deduplication, sorting and compaction |
| `Folding`, `DnKey`, `PeopleIndex` | case folding, the key of a distinguished name, the index of imported people |
| `AttributeNames`, `Attributes`, `AttributeStore` | attribute descriptions; the attribute list as a value; the list, its index and its slices in memory, as a class |
| `Sources`, `Nesting`, `DirectorySet`, `SetMeaning`, `Labels`, `StaticSource`, `Sharing` | a source as the answers it gives; sets, nested sets, frozen sets, the source in memory, and whose memory an answer lies in |
| `SqlDir`, `SqlMeaning` | groups from two queries; what the answers mean, said of rows and columns |
| `LdapCopied`, `LdapGroups`, `LdapAnswers`, `LdapReading`, `LdapBulk` | groups from a directory, one at a time and in one pass |
| `LdapMeaning`, `CopyMeaning` | what those answers mean, said of entries, attributes and values by their positions |
| `LdapPromise`, `NameRules`, `NamingExact`, `WantExact` | when the two agree, where they part, and that these are all the cases |
| `WholeDirectory` | the bulk readers and the frozen set together |
| `Md4`, `Md4Sample`, `NtHash` | the digest of RFC 1320, a sample of it derived, and the NT hash over it |
| `Unavailable`, `Bind` | telling an outage from a wrong password |

Code that updates lists, maps or fields step by step is a method with its loops, or a class; its `ensures` ties it
to a specification function, and what the repository promises is proved of that function; what such a function finds
is stated once more by positions alone, without the function. Searches and queries are
what they return, and stand still. Whatever lies in libraries that are not part of this model (`unicode.SimpleFold`,
`unicode.ToLower`, `ldap.ParseDN`) is a constant of which only what is said at its declaration is known; how a
directory compares names and which attributes it returns when one is asked for belong to the directory, and every
theorem is about all of them.

## Where the code and its documentation part

- `unavailable.go:25-28` says that no error is both a wrong password and an outage, by construction.
  `AsUnavailable` keeps that (`Unavailable.Exclusive`) but does not bring it about: an error that comes in as both
  goes out as both (`Unavailable.NotAlwaysExclusive`). In the password check it never comes in as both
  (`Bind.EveryVerdict`).
- `groupreader.go:43-46` says that the frozen set gives the answers the set gives, and `ldapdir/ldapdir.go:676-679`
  that a group is matched as the directory matches it. Two conditions are needed, and `LdapPromise.BulkReadAgrees`
  proves them enough.
  - The directory matches by the equality rule of its naming attribute; the code files entries by the lower case of
    the values it reads under one spelling of it. At a name, the bulk read agrees with the source whatever else the
    entries hold if and only if the entries filed under it are the entries found; of a name not listed, if none is
    found (`NamingExact.ConditionExact`). A rule keeps every listed group safe if and only if it is equality of
    lower-case forms (`NameRules.RuleExact`). Three inputs fail: "a b" beside "a  b" under a rule that ignores extra
    spaces (`NameRules.SpacesDiffer`), a name asked for in a case no entry uses (`NameRules.FoldedNameDiffers`), and a
    naming attribute configured as CN and returned as cn (`NameRules.CapitalsDiffer`).
  - The one search drops an attribute that `strings.EqualFold` takes for one asked for already
    (`ldapdir/ldapdir.go:687-692`). A server knows only descriptions, which are ASCII. A configuration is served, in
    every directory and wherever the first condition holds, if and only if each attribute dropped is asked for exactly
    or is the same description as an ASCII one asked for (`WantExact.CoverageExact`); it is when `GroupAttribute` and
    `MemberAttribute` are ASCII (`LdapAnswers.AsciiCovers`). `New` does not check them, and one spelled with a long s
    in front of a copied attribute spelled with an s is accepted and fails (`WantExact.MixedAccepted`,
    `WantExact.LongSDiffers`).
- `attributes.go:30-31` says that an Attributes is immutable once built, so that it can be shared and copied freely.
  `identity.go:171` hands out a copy of the struct, which shares its array, values and index with the identity's own,
  and `identity.go:160-166` adds to that one. A copy says of every name what it said before an add if and only if it
  had no index or there was nothing to add (`AttributeStore.AddBesideCopy`). It finds a position past its end for a
  new name (`AttributeStore.NewNameBreaksCopy`), and says a new value of an old one
  (`AttributeStore.NewValueReachesCopy`).
- `source.go:448` clones the members it answers with and `groupreader.go:88` does not. A write through the answer about
  one group shows in the next about another if and only if both are one array and the value is new there
  (`Sharing.WriteThrough`); of what ReadGroups files, if and only if the two names have one lower case
  (`Sharing.WriteThroughBulk`).
- `ldapdir/dnkey.go:14-22` equates three things: equal keys, the same multiset of pairs in each RDN, and the
  comparison of the LDAP library. The first two are the same (`DnKey.KeyDecidesMatch`). A comparison by count and
  containment both ways is coarser, and is the same for exactly the RDNs that repeat no pair or hold a single one
  (`DnKey.ContainmentExact`).
- `attributes.go:168-200` reads as if equivalent names were carried or refused together. They are if they are ASCII:
  of two equivalent names, one carried, the other is carried exactly when it is ASCII
  (`AttributeNames.EquivalentNamesAccepted`, with the Kelvin sign in `AttributeNames.KelvinSignParts`).
- `md4.go:31` writes the length in bits as 64 bits, so it comes round at 2^61 bytes. Padding stays injective at every
  length (`Md4.PaddingInjective`). What is lost there is that no padded message ends another: `Md4.PaddingSuffix`
  says exactly which do, and `Md4.SuffixAtWrap` gives a pair.

## Model

| member | source | states |
|---|---|---|
| Folding.CanonOf | ldapdir/dnkey.go:66-75 | the walk ends under any permutation of the runes, and yields the least rune of the whole orbit |
| Folding.Period | ldapdir/dnkey.go:69-73 | why it ends: an injective table over finitely many runes comes back to where it started |
| Folding.CanonDecidesOrbit | ldapdir/dnkey.go:66-75 | two runes have one canonical rune if and only if they lie on one fold orbit |
| Folding.CanonAllDecidesEqualFold | ldapdir/dnkey.go:18-22 | reducing each rune decides strings.EqualFold, both ways |
| DnKey.UvarintPrefix | ldapdir/dnkey.go:30 | what follows an attribute count cannot be taken for part of it |
| DnKey.EscapePrefix | ldapdir/dnkey.go:50-62 | an escaped rune is told from any other whatever follows, the UTF-8 of every length included |
| DnKey.TerminatedPrefix | ldapdir/dnkey.go:48-64 | a field ends where its 0 byte says: no value can pass for a separator |
| DnKey.PairKeyPrefix | ldapdir/dnkey.go:33-38 | one type=value pair is read back, up to folding, from the front of any bytes |
| DnKey.MatchIsSamePairs | ldapdir/dnkey.go:18-22 | pairing attributes off one by one is the same as having one multiset of folded pairs |
| DnKey.KeyDecidesMatch | ldapdir/dnkey.go:14-46 | for all names: one key if and only if as many RDNs, matching position by position |
| DnKey.OnePair | ldapdir/dnkey.go:31-35 | the fast path of a single attribute writes what sorting would |
| DnKey.ContainmentExact | ldapdir/dnkey.go:14-22 | comparing an RDN by count and mutual containment is the matching rule if and only if it repeats no pair or has only one |
| DnKey.FoolsContainment | ldapdir/dnkey.go:18-22 | every RDN outside that condition has a partner that containment accepts and the matching rule refuses |
| DnKey.MatchIsContained | ldapdir/dnkey.go:14-22 | matching RDNs always contain one another |
| DnKey.AppendField | ldapdir/dnkey.go:48-64 | appends the folded, escaped, terminated field behind what was there |
| DnKey.AppendRdn | ldapdir/dnkey.go:29-44 | appends an RDN's count and sorted pairs, by either path |
| DnKey.AppendDnKey | ldapdir/dnkey.go:28-46 | appends the whole key behind what was there |
| PeopleIndex.Imported | ldapdir/ldapdir.go:823-847 | the index answers every name as a linear search for the first named person whose DN parses and matches |
| PeopleIndex.WhoIs | ldapdir/ldapdir.go:849-857 | a name is answered if and only if the DN is not empty and the first person with a name whose DN parses and matches has that one |
| PeopleIndex.SearchFinds | ldapdir/ldapdir.go:833-857 | the linear search finds a name if and only if somebody at some index has it, is named, has a DN that parses and matches, and nobody before does; an empty DN finds nobody |
| AttributeNames.SplitJoin | attributes.go:248-250 | parts without semicolons survive being joined and split |
| AttributeNames.CanonicalDecidesEquivalence | attributes.go:244-251 | the canonical form and the direct comparison both decide one relation: same type, same multiset of options, case aside |
| AttributeNames.EquivalentTypes | ldapdir/ldapdir.go:261-266 | equivalent descriptions have one type |
| AttributeNames.ContainsSlice | attributes.go:207-217 | a fragment is contained if and only if it is the slice at some position |
| AttributeNames.AcceptsMeaning | attributes.go:201-242 | a name is accepted if and only if it is a keystring and options of letters, digits and hyphens, and its type is not reserved and, but for secretary, has no fragment of a secret anywhere |
| AttributeNames.EquivalentNamesAccepted | attributes.go:201-242 | of two equivalent names, one accepted, the other is accepted if and only if it is ASCII |
| AttributeNames.KelvinSignParts | attributes.go:201-242 | the input that shows the ASCII condition is needed |
| Basics.DedupMeaning | source.go:154-199 | first-appearance deduplication keeps the same members, each once, in the order they first appear |
| AttributeLists.AddKeepsWellFormed | attributes.go:82-105 | adding keeps every canonical name once and every value list free of repeats |
| AttributeLists.ValuesAfterAdd | attributes.go:82-105 | adding extends the values of one attribute and changes no other |
| AttributeLists.ValuesAfterAddAll | attributes.go:82-105 | after any run of adds, the values under a name are all those given under equivalent names, once each, in order |
| AttributeLists.NamesAfterAddAll | attributes.go:45-48 | each attribute is spelled the first way it was given |
| AttributeLists.GetAfterNew | attributes.go:43-80 | what Get reads back after NewAttributes, and the order in which attributes stand |
| AttributeLists.BuiltMeaning | attributes.go:59-80 | a list is built if and only if every attribute has an accepted name, a value and no empty value; else the first that has not is the error, its name before its values |
| AttributeStore.Append | attributes.go:100-104 | appending to a slice, in place or in a new array, leaves what was there and the value behind it |
| AttributeStore.Attributes.Place | attributes.go:83-99 | finds or makes the position of a name, with an array of its own for its values; the index stays exactly the positions of the canonical names, and what lay in the old array lies there still |
| AttributeStore.Attributes.Add | attributes.go:82-105 | list and index change together to the list with these values added; index cell and array are the ones every copy refers to |
| AttributeStore.Attributes.Get | attributes.go:120-131 | what the struct says of a name, whether or not it is up to date: nothing, a fresh array of its values, or a position past its end |
| AttributeStore.Attributes.ReadIs | attributes.go:120-131 | a list that is up to date says the values under any equivalent name, or nothing, and never goes past its end |
| AttributeStore.Attributes.All | attributes.go:133-142 | every attribute, in order |
| AttributeStore.NewAttributes | attributes.go:59-80 | the first attribute refused is the error, its name before its values; else the list of all of them, in fresh memory that shares nothing with the caller's slices |
| AttributeStore.ReadAcrossWrites | attributes.go:43-80 | whatever a caller writes afterwards in the slices it handed in or got back, it reads again what it gave at first |
| AttributeStore.AddBesideCopy | identity.go:160-171 | what a copy of the struct says, name by name, once the original has been added to; it is what it said if and only if it had no index or there was nothing to add |
| AttributeStore.NewNameBreaksCopy | identity.go:160-171 | a copy taken before a new name is added is sent past its end |
| AttributeStore.NewValueReachesCopy | identity.go:160-171 | a copy taken before a value is added to an old name says it too |
| AttributeStore.Under | attributes.go:144-158 | building by adds yields the first list, then what only the second has, in fresh memory |
| AttributeStore.WithAttributes | identity.go:160-166 | the option adds a built list, attribute by attribute, to what the identity has, and leaves that list as it was |
| AttributeLists.UnderOwner | attributes.go:144-158 | for every name the values are those of the first list that gives it, whole |
| AttributeLists.UnderOrder | attributes.go:144-158 | the names stand in the order of the first list, then of what only the second has |
| AttributeLists.UnderAssociative | attributes.go:147-158 | merging three lists may be bracketed either way |
| AttributeLists.UnderUnit | attributes.go:147-158 | the empty list changes nothing on either side |
| AttributeLists.WithAttributesTwice | identity.go:160-166 | giving a second built list is giving, in turn, what it was built from |
| Nesting.MembersAbsorb | source.go:154-213 | the members a set answers may stand for the answers they came from, errors included |
| Nesting.AttributesAbsorb | source.go:232-256 | the same of attributes |
| Nesting.ClassesAbsorb | source.go:277-302 | the same of object classes |
| Nesting.NamesAbsorb | source.go:311-333 | the same of the names listed |
| Nesting.PeopleAbsorb | source.go:122-149 | the same of people, a name held twice included |
| Nesting.TreeFlattens | source.go:94-112 | any question whose merge absorbs its own results is answered by a tree of sets as by the set of its leaves |
| Nesting.NestingDoesNotMatter | source.go:122-333 | sets of sets, however deep, answer all five questions as the flat set does, with the same error |
| Labels.LabelsNest | source.go:142-145 | whoever a set of sets hands out bears the label the flat set would have given if and only if that label is anything or the part that hands them out has no name to give either |
| Labels.FlatLabel | source.go:142-145 | for sources that are no sets, that label is the one Set.Identities writes |
| Labels.ShadowedAreLabelled | source.go:136-145 | somebody shadowed bears the inner source's name in a set of sets and stays as they were in the flat one; neither hands them out |
| DirectorySet.Set.Members | source.go:154-213 | every answer that came, once each in order of first appearance; else the first real failure; else missing if all lack it; else nobody |
| DirectorySet.Set.Append | source.go:177-198 | searching a short list and hashing a long one give one deduplication, across the switch at 64 |
| DirectorySet.Set.GroupAttributes | source.go:232-256 | the merge of all answers, or the first failure |
| DirectorySet.Set.GroupObjectClasses | source.go:277-302 | the first answer that decides, with Members asked where classes cannot be |
| DirectorySet.Set.GroupNames | source.go:311-333 | the sorted set of what is listed, or the first failure when nothing is |
| DirectorySet.Set.Identities | source.go:122-149 | each person handed out is their first knower's, labelled with it unless labelled already; nobody else is touched |
| DirectorySet.AttributesMeaning | source.go:215-256 | for every name the values are the first giver's, and a name is there if and only if somebody gives it |
| SetMeaning.MembersAnswer | source.go:154-213 | who is a member, when the group is missing, when which failure is the answer, and when nobody is, each if and only if |
| SetMeaning.AttributesAnswer | source.go:226-256 | the first source to fail is the error whoever else answers; success if and only if nobody fails and somebody has the group |
| SetMeaning.ClassesAnswer | source.go:258-302 | the first source that declares classes or fails decides whole; nothing is declared if and only if none does |
| SetMeaning.NamesAnswer | source.go:304-333 | a group is listed once, in order, if and only if some lister names it; when exactly there is an error |
| SetMeaning.PeopleAnswer | source.go:122-149 | somebody is handed out if and only if the first source to know the name hands them out; an error if and only if a source fails or holds a name twice |
| SetMeaning.NamesFault | source.go:311-333 | when nothing could be listed, the first lister that failed is the error |
| SetMeaning.PeopleFault | source.go:122-149 | the first source that fails or holds a name twice is the error |
| DirectorySet.Set.Frozen | groupreader.go:50-65 | every bulk reader is read and replaced, every other source kept; the first that cannot be read is the error |
| DirectorySet.FrozenAnswers | groupreader.go:38-48 | if each bulk reader keeps its promise at a name, freezing changes no answer about it, nor about people |
| DirectorySet.FrozenNames | groupreader.go:74-81 | if each lists what it reads, the frozen set lists the same groups in the same order |
| DirectorySet.Expand | source.go:356-387 | everybody named, once, in order; or the error of the first entry that has one, an empty group being one |
| SetMeaning.ExpansionMeaning | source.go:356-387 | an expansion is answered if and only if every group named is answered for and has somebody; who is in it; and which error the first that is not decides, that it is empty included |
| StaticSource.Open | source.go:389-449 | a list held in memory as a source that a set can ask, its groups listed in order |
| StaticSource.KnowsItsGroups | source.go:389-449 | all questions agree on which groups there are; describing a group does not make it one |
| StaticSource.FrozenIsStatic | groupreader.go:67-105 | a frozen source answers as a list held in memory |
| Sharing.FileUnder | ldapdir/ldapdir.go:776-778 | one slice of members under every spelling, the others kept |
| Sharing.WriteThrough | groupreader.go:83-89 | a write through one answer of a frozen source changes another if and only if both are one array and the value is new; any other answer is as it was |
| Sharing.FileAll | ldapdir/ldapdir.go:736-779 | one array for each lower-case name, under every spelling of it, holding its members |
| Sharing.WriteThroughBulk | groupreader.go:83-89 | of what is read in bulk, the answers that change are those of names with the same lower case |
| Sharing.StaticAnswersAreNot | source.go:443-449 | a write in what a list held in memory answered is in no later answer |
| SqlDir.Memberships | sqldir/sqldir.go:340-367 | who is in which group, row by row, and the groups once each |
| SqlDir.Attributes | sqldir/sqldir.go:276-338 | the description of every name the rows give, or the first refusal in the order it is met |
| SqlDir.RowsCannotFail | sqldir/sqldir.go:283-336 | once the columns are accepted, no row can be refused |
| SqlDir.RowMeaning | sqldir/sqldir.go:312-335 | a row's attribute is every value of the columns with an equivalent alias, once each |
| SqlMeaning.RowAnswer | sqldir/sqldir.go:312-335 | a value is read back under a name if and only if some row about the group has it, not empty, in some column behind the first with an equivalent alias; each once; column by column, then row by row |
| SqlMeaning.DescribedMeaning | sqldir/sqldir.go:276-338 | the query is read if and only if it has two columns, none is refused, every row names a group and the reading ends well; which groups are described; and which error comes first |
| SqlDir.ReadGroups | sqldir/sqldir.go:380-403 | one entry for each group either query names, with both queries' answers, or the first query's error |
| SqlDir.GroupNames | sqldir/sqldir.go:407-430 | those same groups, sorted, once each, or that same error |
| SqlDir.Members | sqldir/sqldir.go:432-455 | the rows' members; nobody for a group only described; missing otherwise |
| SqlDir.GroupAttributes | sqldir/sqldir.go:457-472 | the description; nothing for a group only named; missing otherwise |
| SqlDir.GroupObjectClasses | sqldir/sqldir.go:474-481 | what is declared, for a group that is there |
| SqlMeaning.MembersMeaning | sqldir/sqldir.go:340-367 | a group's members are those of the rows about it, row by row, none left out |
| SqlMeaning.AnswersMeaning | sqldir/sqldir.go:432-481 | a group is there if and only if a row of either query names it, and what the three questions answer then |
| SqlDir.BulkReadAgrees | sqldir/sqldir.go:374-481 | the bulk read answers all three questions as they are answered one by one, for every name, and lists what it reads |
| LdapCopied.CheckCopied | ldapdir/ldapdir.go:228-259 | the first name that must not be copied is the refusal |
| CopyMeaning.ConfigMeaning | ldapdir/ldapdir.go:228-259 | a configuration passes if and only if every name to be copied is accepted and of no type that is read for something else; else the first that fails is the error, a person's attributes before a group's |
| CopyMeaning.TypeIs | ldapdir/ldapdir.go:261-266 | a type is what stands in front of the first semicolon, in lower case |
| LdapCopied.OwnAttributesNotCopied | ldapdir/ldapdir.go:228-259 | an attribute the configuration reads for something else is copied under no spelling |
| LdapCopied.Copied | ldapdir/ldapdir.go:268-289 | the non-empty values under each configured name, as NewAttributes takes them |
| LdapCopied.CopiedCannotFail | ldapdir/ldapdir.go:228-289 | under an accepted configuration copying fails on no entry |
| LdapCopied.CopiedMeaning | ldapdir/ldapdir.go:268-289 | what is copied under a name: the entry's non-empty values under every equivalent one, once each, if it was asked for |
| CopyMeaning.CopiedAre | ldapdir/ldapdir.go:268-289 | a value is copied under a name if and only if that name is asked for, in some spelling, and an attribute of that description has the value, not empty; each once, in order of where it first stands |
| LdapAnswers.AnsweredSame | ldapdir/ldapdir.go:687-696 | whatever else is asked for, and however little a server returns, the values of an attribute that is covered come back as they are |
| LdapAnswers.AsciiCovers | ldapdir/ldapdir.go:687-692 | a configuration in ASCII drops nothing that it needs |
| LdapGroups.ListedIsFound | ldapdir/ldapdir.go:581-601 | a group listed is a group found, whatever the equality rule |
| LdapReading.MemberDnOf | ldapdir/ldapdir.go:793-813 | the test of a member value, branch by branch: a DN, one that names nobody, or a name |
| LdapMeaning.MeansIs | ldapdir/ldapdir.go:793-857 | what a member value contributes: of member or uniqueMember in any case, and of another configured attribute if it parses to a name, the first named person whose parsed DN matches, or nobody; any other, itself |
| LdapMeaning.PersonIs | ldapdir/ldapdir.go:829-837 | a person's name is the first value of the naming attribute where it first stands, if that is not empty |
| LdapReading.Members | ldapdir/ldapdir.go:619-667 | everybody that the values of the entries found mean by linear search, once, in order, with one people search if a value is a DN and none if not |
| LdapMeaning.MembersMeaning | ldapdir/ldapdir.go:619-667 | somebody is answered if and only if some value, at some place of some entry found, contributes them; each once, in order of first place; missing if and only if nothing is found; and the failure of the people search if and only if a value read is a DN |
| LdapReading.GroupAttributes | ldapdir/ldapdir.go:457-470 | the copied attributes of all the entries found, put together |
| CopyMeaning.DescriptionMeaning | ldapdir/ldapdir.go:457-470 | a value is answered under a name if and only if that name is asked for and some entry found has the value there, not empty |
| LdapReading.GroupObjectClasses | ldapdir/ldapdir.go:472-480 | what is declared, for a group that is there |
| LdapReading.GroupNames | ldapdir/ldapdir.go:578-601 | every name of every group entry, sorted, once each |
| LdapMeaning.ListedMeaning | ldapdir/ldapdir.go:578-601 | a group is listed if and only if it is a value of the naming attribute where some entry first has it, at whatever place; each once, sorted |
| LdapReading.People | ldapdir/ldapdir.go:655-659 | the index stands for the people, and there has been one search for them, now or before |
| LdapBulk.Want | ldapdir/ldapdir.go:687-692 | the naming attribute, then every other that is not the same, case aside, as one before it |
| LdapBulk.GroupEntries | ldapdir/ldapdir.go:701-720 | for each lower-case name, the entries that carry it, in order and once each, and every spelling of it |
| LdapBulk.Recall | ldapdir/ldapdir.go:744-758 | what is remembered of a value is always what working it out again would say, and no DN is remembered without the people |
| LdapBulk.GroupDataOf | ldapdir/ldapdir.go:737-775 | one folded name's data is what the search returned of the entries filed under it, though values were remembered |
| LdapBulk.ReadGroups | ldapdir/ldapdir.go:669-781 | exactly the groups listed, each with what was returned of the entries filed under its lower case, in whatever order the names are taken; at most one people search, and that if and only if a listed group has a DN for a member |
| LdapMeaning.BulkMembersMeaning | ldapdir/ldapdir.go:732-778 | who is read in bulk as a member, in which order, and when it fails, place by place in what the one search returned of the entries filed |
| LdapPromise.NothingLost | ldapdir/ldapdir.go:687-692 | where every attribute dropped is covered, what is returned of the entries is what they hold |
| LdapPromise.AnswersOfFiled | ldapdir/ldapdir.go:669-679 | where the entries filed are those found, and nothing needed is dropped, what is read is what all three questions answer |
| LdapPromise.BulkReadAgrees | ldapdir/ldapdir.go:669-781 | the bulk read lists what the source lists; agrees where the entries filed are those found and nothing needed is dropped; and at a name not listed agrees exactly where nothing is found |
| LdapPromise.BulkReadFails | ldapdir/ldapdir.go:750-752 | there, it fails if and only if one of the questions it stands for does |
| LdapPromise.FoldingRule | ldapdir/ldapdir.go:676-679 | under equality of lower case on the names held, and one spelling of the attribute, that is so of exactly the groups listed and those nothing answers to in any case |
| NamingExact.ConditionExact | groupreader.go:29-33 | for every configuration: given how the entries are named, the bulk read can be trusted at a name, whatever else they hold, if and only if the entries filed are those found |
| WantExact.CoverageExact | ldapdir/ldapdir.go:687-692 | a configuration is served in every directory, wherever the entries filed are those found, if and only if every attribute dropped is covered |
| WantExact.MixedAccepted | ldapdir/ldapdir.go:228-259 | a configuration that is not served, and is accepted |
| WantExact.LongSDiffers | ldapdir/ldapdir.go:687-696 | under it a group has an attribute, asked about by itself, that the bulk read has not |
| NameRules.RuleExact | ldapdir/ldapdir.go:676-679 | the bulk read agrees at every listed name of every directory with a rule, under every configuration that is served, if and only if the rule is equality of lower-case forms |
| NameRules.TwoNamesDiffer | ldapdir/ldapdir.go:676-720 | any two names on which the rule and lower case differ make a directory where Members and ReadGroups differ |
| NameRules.SpacesDiffer | ldapdir/ldapdir.go:676-720 | "a b" beside "a  b": asked for, both entries' members; read in bulk, one's |
| NameRules.FoldedNameDiffers | groupreader.go:43-46 | one group, asked for in another case, has its members from the source and is missing from the bulk read |
| NameRules.CapitalsDiffer | ldapdir/ldapdir.go:704-720 | a naming attribute configured in capitals and returned in small letters is found and never read |
| LdapPromise.BulkReadUnique | ldapdir/ldapdir.go:732-778 | no order of walking the spellings can change the result, errors included |
| SqlDir.BulkReadUnique | sqldir/sqldir.go:393-401 | no order of walking the two maps can change the result |
| WholeDirectory.FreezingChangesNothing | groupreader.go:38-65 | a set of databases, directories and other sources answers all five questions the same once frozen, at a name whose entries each directory finds as its client files them, each client being served |
| Md4.CallIsStep | md4.go:40-48 | each closure is one operation of the table in section 3.4 of RFC 1320 |
| Md4.Block | md4.go:38-68 | the three loops are the table's 48 operations in order, then the addition of the state that went in |
| Md4.EachWordOnce | md4.go:49-67 | each round reads each of the sixteen words exactly once |
| Md4.RotlBack | md4.go:78 | rotating on by the rest of 32 undoes a rotation, for every distance used |
| Md4.UnstepStep | md4.go:40-48 | an operation can be undone, and undoes what undoes it |
| Md4.RoundsAreBijective | md4.go:38-67 | for a fixed block the 48 operations are a bijection on states |
| Md4.Pad | md4.go:23-31 | the loop ends and writes the padding of sections 3.1 and 3.2 of RFC 1320 |
| Md4.PaddingBound | md4.go:23-31 | the padded message is whole blocks, as few as can be, and fits the capacity set aside |
| Md4.PaddingInjective | md4.go:23-31 | two messages of any length have one padded form if and only if they are one |
| Md4.PaddingSuffix | md4.go:23-31 | one padded message ends another if and only if the message ends the other behind a whole number of 2^61 bytes |
| Md4.PaddingSuffixFree | md4.go:31 | below 2^61 bytes none ends another |
| Md4.SuffixAtWrap | md4.go:31 | at 2^61 bytes one does |
| Md4.DigestInjective | md4.go:71-75 | the sixteen bytes are the whole final state |
| Md4.LittleEndianAt | md4.go:71-75 | byte i of a number is what is left of it over 256 to the i, modulo 256 |
| Md4.LoadWordIs | md4.go:36 | the word read from four bytes is the one written as those four bytes |
| Md4.InitialIs | md4.go:21 | the initial state is, byte by byte, what section 3.3 of RFC 1320 prints |
| Md4.Md4Sum | md4.go:19-76 | the digest is the table run over the padded message's blocks |
| Md4Sample.SampleDigest | md4.go:19-76 | the digest of eighty digits is the last sample of appendix A.5 of RFC 1320 |
| NtHash.EncodeUtf16Le | identity.go:349-357 | writes the UTF-16 units of a password, low byte first |
| NtHash.UnitBytesAt | identity.go:349-357 | bytes 2i and 2i+1 are the low and the high byte of unit i |
| NtHash.UnitsMeaning | identity.go:349-357 | a rune above the first plane is two surrogates that add up to it |
| NtHash.EncodingInjective | identity.go:349-357 | two passwords are encoded alike if and only if they are one |
| NtHash.NtHashOf | identity.go:298-305 | the digest of that encoding, sixteen bytes |
| Unavailable.MarkingMeans | unavailable.go:38-44 | marking adds one meaning, takes none away, keeps the result code, and is idempotent |
| Unavailable.Exclusive | unavailable.go:25-44 | an error is both after marking if and only if it was both before |
| Unavailable.NotAlwaysExclusive | unavailable.go:25-44 | an error that is both, and stays both |
| Unavailable.FailMeans | ldapdir/ldapdir.go:328-346 | of any error: an outage afterwards if and only if it was one or is neither an answer nor a wrong password; nothing else is said that was not, the code is kept, and saying it twice is saying it once |
| Unavailable.FailCodes | ldapdir/ldapdir.go:312-346 | an answer is an outage on codes 3, 51, 52, 80, 81, 85, 91 and 200, and on no other |
| Bind.RunKeeps | ldapdir/ldapdir.go:521-576 | the machine's invariant holds after every run of events in every order |
| Bind.EveryVerdict | ldapdir/ldapdir.go:521-576 | over every interleaving: what success, a wrong password, an outage and any other error each imply, never two at once; what the server said is passed on unless the context, the connection or the answer was an outage; nothing dialled for an empty password or under an ended context; no bind answered before the TLS asked for; nothing left open |
| Bind.LostRun | ldapdir/ldapdir.go:552-572 | once a bind has failed under an ended context, even on code 49, or without an answer, every way the run can go on ends in an outage |
| Bind.StepsAreBounded | ldapdir/ldapdir.go:521-576 | no run holds more than eight steps of the check itself |
| Bind.CancelledChecksReturn | ldapdir/ldapdir.go:543-549 | under an ended context the check always has a step of its own left until it returns, so a silent server cannot hold it |

## Left out

- Dialling, TLS, SQL drivers, the LDAP wire and filter syntax: a search or a query is what it returns, or an error.
- Changes under the reader: a source's data stands still between the questions compared, and a people search that
  fails once fails each time.
- DN text: `ldap.ParseDN` is an arbitrary partial function from text to names. The library's own comparison of names
  is not part of this model; only its description is, and what count and containment would decide.
- Texts as bytes: strings are sequences of runes, so an invalid byte is already U+FFFD.
- The tables of the Unicode standard: folding is any permutation of the runes, and lower-casing any function that is
  right on ASCII and makes no semicolons. The fold of `strings.EqualFold` is the orbit relation; its ASCII fast path
  is not modelled apart.
- NamingExact.ConditionExact: for schemas where no attribute of members is a kind of the naming attribute, and if some
  member value is no DN or is one that parses; without that no member could ever be told.
- The equality rule of the group attribute: any relation that holds of a value and itself. What a server returns: any
  selection that returns an attribute under its own name, and the equivalent ones of an ASCII description.
- What a server calls an attribute: it is returned under the directory's own spelling, whatever spelling asked for it.
- Memory: attribute lists and the members a frozen source answers with lie in arrays; other answers are values. Growth of
  a full slice doubles it, where Go chooses for itself; an attribute handed to `add` shares no array with the list, as
  in every call the code makes. A read past the end, which panics, is an answer of its own.
- slices.Sort and slices.Compact: the library's functions, modelled as functions (insertion into a sorted list, and
  dropping repeats next to each other); sorting in place is not modelled.
- DirectorySet.Set.Identities: inner sets are answers, not calls; `Labels` says what their labels come to.
- DirectorySet.Set.Identities: when there is an error, the label of somebody who had none may have been written or not.
- Bind.EveryVerdict: the errors of the LDAP library are taken not to be this repository's own two, and a bind without an
  answer to carry no result code or one of an outage; the deadline given to the dialer is one way for a dial to fail.
- LdapCopied.CheckCopied: where New refuses for other reasons (no base, a plaintext URL) is not modelled.
- Credentials: `Can`, `Verify`, SHA-256, hex and base32 parsing.
- The list of reserved names: any set. The fragments that look like secrets are as in the code.
- Object classes: any list, already built.
- Error texts, Describe strings beyond their joining, and Close.
- `hcldir` (configuration files) and `ldaptest` (a fixture).
