# Hierarchical names, iteration by iteration

A name is a sequence of string components, such as `oss.cs.fau.de`. It is written with a
delimiter character (default `.`). The escape character `\` masks a delimiter or an escape
character that belongs to a component. Every iteration has two representations of a name:

- `StringName` keeps one escaped string and splits it on demand.
- `StringArrayName` keeps the list of logical components.

This project models four iterations of that value type, and the file life cycle of two
more:

- The mutable names of the second and third iteration: `NameB02` (two independent
  classes) and `NameB03` (a shared abstract base).
- The design-by-contract names of the fourth iteration. `NameB04` puts their concrete
  classes on the contract-checking base class of the fifth iteration.
- The immutable value objects of the sixth iteration (`NameB06`).
- The `File` of the fourth and fifth iteration: `FileLifecycle`, `FileB04`, `FileB05`.

Two modules are shared by all iterations:

- `Codec` models the escape code. Escaping and unescaping are written as global literal
  replacements, as the regular expressions of the code perform them. `Codec` also models
  the left-to-right splitter and the join.
- `Hashing` models the 32-bit string hash of `getHashCode`.

Mutable names are classes with one `storage` field. `StringBacked(name, noComponents)` is a
`StringName` and `ArrayBacked(components)` is a `StringArrayName`. So `concat` and `isEqual`
can take any name of their iteration. `Components()` is the logical component list. A mutator is
specified by `Written(storage, delimiter, list)`, the fields after writing a component list.
The lemma `WrittenComponents` says what reading them back gives.

Exceptions are values: `Result` for a returned value and `Outcome` for a `void` method.
`Fail(e)` and `Err(e)` name the exception the code throws. A source or an argument that may be
`null` or `undefined` is an `Option`, or a nullable class reference `Name?`. A delimiter
parameter with a default is an `Argument`: `Omitted` (undefined, so the default applies),
`Null` or `Given(d)`.

## Model

| member | source | states |
|---|---|---|
| Codec.DelimiterArgument | src/adap-b06/names/AbstractName.ts:153-159 | accepted exactly when omitted, giving `.`, or given with length 1, giving that character; an explicit null or any other length is IllegalArgumentException |
| Codec.JoinConcat | src/adap-b06/names/AbstractName.ts:37-44 | joining two non-empty lists one after the other is joining each and putting the separator between |
| Codec.EscapeJoinConcat | src/adap-b06/names/AbstractName.ts:37-44 | the data string of two non-empty lists one after the other is both data strings joined by the delimiter |
| Codec.ReplaceAllAbsent | src/adap-b06/names/AbstractName.ts:161-173 | a global replacement whose pattern does not occur leaves the string unchanged |
| Codec.ReplaceAllCharConcat | src/adap-b06/names/AbstractName.ts:161-166 | replacing a one-character pattern distributes over concatenation |
| Codec.EscapeComponentIsCharMap | src/adap-b06/names/AbstractName.ts:161-166 | the two-pass escape equals the per-character map `\` to `\\`, delimiter to `\`+delimiter, anything else unchanged |
| Codec.EscapeCharsLength | src/adap-b06/names/AbstractName.ts:161-166 | escaping adds exactly one character per escape character and per delimiter |
| Codec.EscapeCharsHead | src/adap-b06/names/AbstractName.ts:161-166 | an escaped non-empty component never starts with the delimiter |
| Codec.UnescapeEscaped | src/adap-b06/names/AbstractName.ts:168-173 | unescaping an escaped component with replacement r gives the component with every delimiter replaced by r |
| Codec.UnescapeEscapeInverse | src/adap-b06/names/AbstractName.ts:161-173 | unescape with the own delimiter undoes escape, for every component |
| Codec.EscapePlain | src/adap-b06/names/AbstractName.ts:161-166 | a component without escape character and delimiter escapes to itself |
| Codec.UnescapePlain | src/adap-b06/names/AbstractName.ts:168-173 | a component without escape character unescapes to itself |
| Codec.MapEscape | src/adap-b06/names/AbstractName.ts:37-44 | the escaped list has the same length and holds the escape of each component at its index |
| Codec.MapUnescape | src/adap-b06/names/AbstractName.ts:23-31 | the unescaped list has the same length and holds the unescape of each component at its index |
| Codec.EscapeJoinPlain | src/adap-b06/names/AbstractName.ts:37-44 | the data string of plain components is their plain join |
| Codec.JoinAppend | src/adap-b06/names/AbstractName.ts:37-44 | joining a non-empty list extended by c appends the separator and c |
| Codec.EscapeJoinAppend | src/adap-b06/names/AbstractName.ts:37-44 | appending a component extends a non-empty data string by the delimiter and the escaped component |
| Codec.MapUnescapePlain | src/adap-b06/names/AbstractName.ts:23-31 | components without escape characters are unchanged by unescaping |
| Codec.JoinUnescapePlain | src/adap-b06/names/AbstractName.ts:23-31 | for such components, asString's join is their plain join |
| Codec.Split | src/adap-b06/names/StringName.ts:49-72 | the split always yields at least one component |
| Codec.SplitComponents | src/adap-b06/names/StringName.ts:49-72 | the character loop with its escape flag computes the split |
| Codec.ScanConcat | src/adap-b06/names/StringName.ts:49-72 | scanning a concatenation scans the first part and then the second |
| Codec.ScanEscapedComponent | src/adap-b06/names/StringName.ts:49-72 | scanning an escaped component appends it, unmasked, to the current component |
| Codec.ScanEscapeJoin | src/adap-b06/names/StringName.ts:49-72 | scanning a data string closes every component but the last, which stays current |
| Codec.SplitEscapeJoin | src/adap-b06/names/StringName.ts:49-72 | splitting the data string of a non-empty list gives the list back |
| Codec.SplitEscapeJoinAny | src/adap-b06/names/StringName.ts:49-72 | round trip for every list: the empty list is written as "" and reads back as one empty component |
| Codec.SplitPlainJoin | src/adap-b06/names/StringName.ts:49-72 | splitting the plain join of plain components gives them back |
| Codec.ScanCounts | src/adap-b06/names/StringName.ts:49-72 | after a scan, the escape flag is set iff the string ends in an odd run of `\`, and the number of closed components is the number of unmasked delimiters |
| Codec.CountsAppend | src/adap-b06/names/StringName.ts:49-72 | how the run of trailing escapes and the number of unmasked delimiters change by one more character |
| Codec.SplitCount | src/adap-b06/names/StringName.ts:49-72 | the number of components is one more than the number of unmasked delimiters |
| Codec.MaskedComponent | test/adap-b06/names/NameValueObjects.test.ts:74-79 | `oss#cs` escapes under `#` to `oss\#cs` |
| Codec.MaskedEscapeJoinThree | test/adap-b06/names/NameValueObjects.test.ts:74-79 | the data string of `oss#cs`, `fau`, `de` under `#` is `oss\#cs#fau#de` |
| Codec.MaskedEscapeJoinTwo | test/adap-b06/names/NameValueObjects.test.ts:43-52 | the data string of `oss#cs`, `fau` under `#` is `oss\#cs#fau` |
| Codec.SingleEscapeJoin | src/adap-b06/names/AbstractName.ts:37-44 | the data string of one plain component is that component |
| Codec.MaskedSplit | test/adap-b03/names/Name.test.ts:60-68 | `oss\#cs#fau#de` under `#` has the three components `oss#cs`, `fau`, `de`, and is their data string |
| Hashing.ToInt32 | src/adap-b06/names/AbstractName.ts:77-78 | or-ing with 0 yields a signed 32-bit value |
| Hashing.ToInt32Unique | src/adap-b06/names/AbstractName.ts:77-78 | the 32-bit value of x is the one in range that differs from x by a multiple of 2^32 |
| Hashing.ToInt32Small | src/adap-b06/names/AbstractName.ts:77-78 | values already in range are unchanged |
| Hashing.HashOf | src/adap-b06/names/AbstractName.ts:71-81 | every hash code is a signed 32-bit value |
| Hashing.StringHash | src/adap-b06/names/AbstractName.ts:74-80 | the loop over the character codes computes HashOf |
| Hashing.HashStepIsMultiplyAdd | src/adap-b06/names/AbstractName.ts:77-78 | one step `(h << 5) - h + c` truncated is `31*h + c` truncated |
| Hashing.HashIsTruncatedPolynomial | src/adap-b06/names/AbstractName.ts:71-81 | the hash is the 32-bit truncation of the unbounded polynomial hash with base 31 |
| NameB06.Name.GetComponent | src/adap-b06/names/AbstractName.ts:98-102 | component i of the snapshot for an index in [0, count), IllegalArgumentException for any other |
| NameB06.Name.AsDataString | src/adap-b06/names/AbstractName.ts:37-44 | the data string splits back under the own delimiter into the components; the empty list comes back as one empty component |
| NameB06.Name.AsString | src/adap-b06/names/AbstractName.ts:23-31 | a delimiter not one character long is IllegalArgumentException; for components without escape characters the result is their join by the delimiter |
| NameB06.Name.CanonicalDataString | src/adap-b06/names/AbstractName.ts:175-179 | the canonical string splits back under `.` into the components; the empty list comes back as one empty component |
| NameB06.Name.GetComponentsSnapshot | src/adap-b06/names/StringName.ts:36-38 | StringName's snapshot runs the splitter, StringArrayName's copies the list; both give the logical components |
| NameB06.Name.CreateWithComponents | src/adap-b06/names/StringName.ts:29-34 | a valid name of the same representation and delimiter whose components are the list, except that StringName turns the empty list into one empty component |
| NameB06.Name.GetNoComponents | src/adap-b06/names/StringName.ts:24-27 | StringName's cached count equals the number of logical components |
| NameB06.Name.IsEmpty | src/adap-b06/names/AbstractName.ts:83-86 | empty iff the count is 0 |
| NameB06.Name.SetComponent | src/adap-b06/names/AbstractName.ts:104-110 | an index outside [0, count) is IllegalArgumentException; otherwise a new name with component i replaced |
| NameB06.Name.Insert | src/adap-b06/names/AbstractName.ts:112-118 | an index outside [0, count] is IllegalArgumentException; otherwise a new name with c inserted at i |
| NameB06.Name.Append | src/adap-b06/names/AbstractName.ts:120-125 | a new name with c added at the end |
| NameB06.Name.Remove | src/adap-b06/names/AbstractName.ts:127-133 | an index outside [0, count) is IllegalArgumentException; otherwise component i is gone, or one empty component remains when a StringName loses its only one |
| NameB06.Name.Concat | src/adap-b06/names/AbstractName.ts:135-143 | a missing other is IllegalArgumentException; otherwise a new name with the own components followed by the other's |
| NameB06.Name.IsEqual | src/adap-b06/names/AbstractName.ts:46-69 | true iff both component lists are equal, whatever the delimiters and representations |
| NameB06.Name.GetHashCode | src/adap-b06/names/AbstractName.ts:71-81 | the string hash of the canonical data string |
| NameB06.Name.Clone | src/adap-b06/names/AbstractName.ts:16-21 | the clone never fails: it has the same representation, delimiter and components |
| NameB06.NewStringName | src/adap-b06/names/StringName.ts:12-18 | a null source, a null delimiter or a delimiter of length other than 1 is IllegalArgumentException; otherwise a valid StringName holding the source |
| NameB06.NewStringArrayName | src/adap-b06/names/StringArrayName.ts:10-35 | a null source, a null delimiter or a delimiter of length other than 1 is IllegalArgumentException; a null entry fails the invariant and is InvalidStateException; otherwise a StringArrayName holding the list |
| NameB06.StringNameNeverEmpty | src/adap-b06/names/StringName.ts:24-27 | a StringName always has at least one component |
| NameB06.RepresentationsAgree | test/adap-b06/names/NameValueObjects.test.ts:81-87 | both representations of one list agree on every query and every operation, except remove of the only component |
| NameB06.EqualNamesHashEqual | src/adap-b06/names/AbstractName.ts:71-81 | equal names have equal hash codes |
| NameB06.CanonicalDataStringDeterminesComponents | src/adap-b06/names/AbstractName.ts:175-179 | equal canonical strings mean equal components, except for the empty list against one empty component |
| NameB06.EmptyCollidesWithEmptyComponent | src/adap-b06/names/AbstractName.ts:175-179 | the empty list and one empty component are unequal but have the same canonical string |
| NameB06.AsStringUnescapesLogicalComponents | src/adap-b06/names/AbstractName.ts:23-31 | asString unescapes already-logical components once more, which changes any component holding an escape sequence |
| NameB06.FourComponentsExample | src/adap-b06/names/Name.ts:12 | `oss.cs.fau.de` has the four components `oss`, `cs`, `fau`, `de` |
| NameB06.EmptyComponentsExample | src/adap-b06/names/Name.ts:13 | `///` under `/` has four empty components |
| NameB06.MaskedDotsExample | src/adap-b06/names/Name.ts:14 | `Oh\./\./\.` under `.` has one component, every dot being masked |
| NameB06.MaskedDelimiterExample | test/adap-b06/names/NameValueObjects.test.ts:74-77 | `oss\#cs#fau#de` under `#` has three components, the first being `oss#cs` |
| NameB06.MaskedDelimiterRendering | test/adap-b06/names/NameValueObjects.test.ts:78 | asString(".") of those components is `oss#cs.fau.de` |
| NameB06.SetInsertRemoveExample | test/adap-b06/names/NameValueObjects.test.ts:19-29 | set, insert and remove give the expected new names and leave their receivers unchanged |
| NameB06.CrossRepresentationExample | test/adap-b06/names/NameValueObjects.test.ts:43-52 | a masked StringName equals the array of its logical components and has its hash; appending breaks the equality |
| NameB06.DotSeparatedExample | test/adap-b06/names/NameValueObjects.test.ts:65-70 | `a.b.c` under the default delimiter has the components `a`, `b`, `c` |
| NameB06.HashSeparatedExample | test/adap-b06/names/NameValueObjects.test.ts:65-70 | `a#b#c` under `#` has the components `a`, `b`, `c` |
| NameB06.DelimiterIndependentExample | test/adap-b06/names/NameValueObjects.test.ts:65-70 | `a.b.c` and `a#b#c` under `#` are equal with equal hash codes |
| NameB06.IllegalArgumentExamples | test/adap-b06/names/NameValueObjects.test.ts:90-108 | the rejected sources, delimiters, indices and asString delimiter; a null delimiter is IllegalArgumentException and a null entry InvalidStateException |
| NameB06.SelfConcatExample | src/adap-b06/names/AbstractName.ts:135-143 | an immutable name may be concatenated with itself: `["oss#cs", "fau", "de"]` under `#` gives six components and the doubled data string |
| NameB04.WrittenComponents | src/adap-b04/names/StringName.ts:147-150 | writing a list keeps the representation; the written fields satisfy the invariant unless a StringName is written the empty list; they read back as the list, or as one empty component in that case |
| NameB04.Name.constructor | src/adap-b05/names/AbstractName.ts:11-14 | the delimiter and fields are set as given |
| NameB04.Name.ReadComponents | src/adap-b04/names/StringName.ts:123-145 | the logical components, split from the string or read from the list |
| NameB04.Name.AssertInvariant | src/adap-b04/names/StringName.ts:106-111 | passes iff the cached count is the length of the split, otherwise InvalidStateException |
| NameB04.Name.GetNoComponents | src/adap-b04/names/StringName.ts:49-52 | the number of components, or InvalidStateException when the invariant is broken |
| NameB04.Name.GetComponent | src/adap-b04/names/StringName.ts:54-58 | component i, or IllegalArgumentException for an index outside [0, count) |
| NameB04.Name.SetComponent | src/adap-b04/names/StringName.ts:60-69 | a bad index fails and changes nothing; otherwise component i is replaced, the fields are the written list and the invariant holds |
| NameB04.Name.Insert | src/adap-b04/names/StringName.ts:71-80 | an index outside [0, count] fails and changes nothing; otherwise c is inserted at i and the invariant holds |
| NameB04.Name.Append | src/adap-b04/names/StringArrayName.ts:74-80 | c is added at the end and the invariant holds |
| NameB04.Name.Remove | src/adap-b04/names/StringName.ts:92-100 | a bad index fails and changes nothing; removing a StringName's only component leaves the string "" with count 0, breaks the invariant and fails with InvalidStateException; otherwise component i is removed |
| NameB04.Name.Concat | src/adap-b05/names/AbstractName.ts:110-119 | null is IllegalArgumentException and a broken invariant on either side InvalidStateException, both without change; otherwise the other's components are appended |
| NameB04.Name.AsString | src/adap-b05/names/AbstractName.ts:34-44 | InvalidStateException first, then IllegalArgumentException for a delimiter that is not one character; otherwise the unescaped components joined by d |
| NameB04.Name.AsDataString | src/adap-b05/names/AbstractName.ts:50-59 | the escape-join of the components under the own delimiter, or InvalidStateException |
| NameB04.Name.IsEqual | src/adap-b05/names/AbstractName.ts:61-77 | true for the same object and false for null; otherwise equality of the component lists, or InvalidStateException when either side is broken |
| NameB04.Name.GetHashCode | src/adap-b05/names/AbstractName.ts:79-89 | the string hash of the data string under the own delimiter, or InvalidStateException |
| NameB04.Name.IsEmpty | src/adap-b05/names/AbstractName.ts:91-94 | whether there are no components, or InvalidStateException |
| NameB04.Name.GetDelimiterCharacter | src/adap-b05/names/AbstractName.ts:96-99 | the delimiter, or InvalidStateException |
| NameB04.Name.Clone | src/adap-b05/names/AbstractName.ts:16-32 | InvalidStateException for a broken name; otherwise a fresh object with the same delimiter and fields |
| NameB04.NewStringName | src/adap-b04/names/StringName.ts:13-19 | a null source, a null delimiter or a delimiter that is not one character is IllegalArgumentException; otherwise a fresh consistent StringName with the count cached from the split |
| Common.Values | src/adap-b04/names/StringArrayName.ts:11-16 | for a list without null entries, the entries' values in order |
| NameB04.NewStringArrayName | src/adap-b04/names/StringArrayName.ts:11-16 | a null source, a null delimiter or a bad delimiter is IllegalArgumentException; a null entry breaks the invariant and is InvalidStateException; otherwise a fresh StringArrayName of the list |
| NameB04.RemoveOnlyComponent | src/adap-b04/names/StringName.ts:92-111 | removing the only component of `oss` fails the invariant, the broken name refuses getNoComponents, and setComponent(0, "fau") repairs it to `fau` |
| NameB04.ArrayRemoveToEmpty | src/adap-b04/names/StringArrayName.ts:82-88 | a StringArrayName may lose its only component and is then empty |
| NameB04.ContractViolations | test/adap-b04/names/NameContracts.test.ts:12-65 | null sources, long delimiters, null components, bad indices, a null concat argument and a bad asString delimiter are refused with the tested exceptions |
| NameB04.CloneIsIndependent | src/adap-b05/names/AbstractName.ts:16-32 | changing the original after clone leaves the clone's components unchanged |
| NameB04.ConcatAcrossRepresentations | src/adap-b05/names/AbstractName.ts:110-119 | a StringName concatenated with a StringArrayName holds both component lists |
| NameB04.EqualNamesDifferentHashes | src/adap-b05/names/AbstractName.ts:61-89 | `a.b` under `.` and `a#b` under `#` are equal but have different hash codes |
| NameB04.TwoDataStrings | src/adap-b05/names/AbstractName.ts:50-59 | the data strings of `a`, `b` under `.` and `#` are `a.b` and `a#b` |
| NameB04.TwoHashes | src/adap-b05/names/AbstractName.ts:79-89 | these strings hash to 94741 and 94400 |
| NameB03.WrittenComponents | src/adap-b03/names/StringName.ts:109-111 | writing a list keeps the representation and reads back as the list, or as one empty component when a StringName is written the empty list |
| NameB03.DelimiterOrDefault | src/adap-b03/names/AbstractName.ts:8-14 | a given delimiter is kept as it is, an omitted one is `.` |
| NameB03.Name.constructor | src/adap-b03/names/AbstractName.ts:8-14 | the delimiter and fields are set as given |
| NameB03.Name.ReadComponents | src/adap-b03/names/StringName.ts:85-107 | the logical components, split from the string or read from the list |
| NameB03.Name.GetNoComponents | src/adap-b03/names/StringName.ts:44-46 | the number of logical components |
| NameB03.Name.GetComponent | src/adap-b03/names/StringName.ts:48-52 | component i, or RangeError outside [0, count) |
| NameB03.Name.SetComponent | src/adap-b03/names/StringName.ts:54-59 | a bad index is RangeError without change; otherwise component i is replaced |
| NameB03.Name.Insert | src/adap-b03/names/StringArrayName.ts:58-62 | a StringName accepts indices 0 to count, a StringArrayName only 0 to count-1; others are RangeError without change |
| NameB03.Name.Append | src/adap-b03/names/StringName.ts:68-72 | c is added at the end |
| NameB03.Name.Remove | src/adap-b03/names/StringName.ts:74-79 | a bad index is RangeError without change; otherwise component i is removed, and a StringName that loses its only component holds one empty component |
| NameB03.Name.Concat | src/adap-b03/names/AbstractName.ts:98-105 | null is RangeError without change; otherwise the other's components are appended |
| NameB03.Name.AsString | src/adap-b03/names/AbstractName.ts:32-38 | the components unescaped with d, joined by d |
| NameB03.Name.AsDataString | src/adap-b03/names/AbstractName.ts:44-50 | the escape-join of the components under the own delimiter |
| NameB03.Name.IsEqual | src/adap-b03/names/AbstractName.ts:52-68 | true for the same object, false for null, otherwise equality of the component lists |
| NameB03.Name.GetHashCode | src/adap-b03/names/AbstractName.ts:70-79 | the string hash of the data string under the own delimiter |
| NameB03.Name.IsEmpty | src/adap-b03/names/AbstractName.ts:81-83 | whether there are no components |
| NameB03.Name.Clone | src/adap-b03/names/AbstractName.ts:16-30 | a fresh object with the same delimiter and fields |
| NameB03.NewStringName | src/adap-b03/names/StringName.ts:10-14 | a fresh StringName of the source, its count cached from the split |
| NameB03.NewStringArrayName | src/adap-b03/names/StringArrayName.ts:9-12 | a fresh StringArrayName of the list |
| NameB03.MutationsStayInSync | test/adap-b03/names/Name.test.ts:125-138 | the same set, insert, append and remove on both representations give the same components and data string |
| NameB03.InsertAtEndDiffers | src/adap-b03/names/StringArrayName.ts:58-62 | inserting at index count is RangeError on a StringArrayName, whose bound check uses `>=`, and succeeds on a StringName of the same components, whose check in StringName.ts:61-66 uses `>` |
| NameB03.ConcatParity | test/adap-b03/names/Name.test.ts:140-148 | concat gives the same data string on both representations |
| NameB03.MaskedDelimiterScenario | test/adap-b03/names/Name.test.ts:60-63 | `oss\#cs#fau#de` under `#` has three components and this data string |
| NameB03.MaskedDelimiterRendering | test/adap-b03/names/Name.test.ts:64 | asString(".") of those components is `oss#cs.fau.de` |
| NameB03.DottedJoin | test/adap-b03/names/Name.test.ts:64 | the dotted join of `oss#cs`, `fau`, `de` |
| NameB03.AppendExtendsDataString | test/adap-b03/names/Name.test.ts:65-66 | appending a plain component extends the data string by the delimiter and the component |
| NameB03.HashAlignsWithEquality | test/adap-b03/names/Name.test.ts:164-170 | equal names with the same delimiter have equal hash codes |
| NameB03.CloneIsIndependent | test/adap-b03/names/Name.test.ts:150-162 | the clone is equal, and keeps its components when the original is appended to |
| NameB02.WrittenComponents | src/adap-b02/names/StringName.ts:56-58 | writing a list keeps the representation and reads back as the list, or as one empty component when a StringName is written the empty list |
| NameB02.DelimiterOrDefault | src/adap-b02/names/StringName.ts:10-18 | a given delimiter is kept as it is, an omitted one is `.` |
| NameB02.Name.constructor | src/adap-b02/names/StringArrayName.ts:9-16 | the delimiter and fields are set as given |
| NameB02.Name.ReadComponents | src/adap-b02/names/StringName.ts:20-42 | the logical components, split from the string or read from the list |
| NameB02.Name.AsString | src/adap-b02/names/StringArrayName.ts:18-22 | StringName unescapes with its own delimiter and joins by d; StringArrayName unescapes with d and joins by its own delimiter |
| NameB02.Name.AsDataString | src/adap-b02/names/StringName.ts:66-68 | StringName returns its string as it is; StringArrayName the escape-join of its list |
| NameB02.Name.IsEmpty | src/adap-b02/names/StringName.ts:74-76 | StringName is empty iff its string is ""; StringArrayName iff its list is empty |
| NameB02.Name.GetNoComponents | src/adap-b02/names/StringName.ts:78-80 | the number of logical components |
| NameB02.Name.GetComponent | src/adap-b02/names/StringArrayName.ts:42-46 | component i; a negative index is RangeError on a StringName and a plain Error on a StringArrayName; a too large one is RangeError |
| NameB02.Name.SetComponent | src/adap-b02/names/StringName.ts:88-93 | a bad index is RangeError without change; otherwise component i is replaced |
| NameB02.Name.Insert | src/adap-b02/names/StringArrayName.ts:54-58 | a StringName accepts indices 0 to count, a StringArrayName only 0 to count-1; others are RangeError without change |
| NameB02.Name.Append | src/adap-b02/names/StringName.ts:102-106 | c is added at the end |
| NameB02.Name.Remove | src/adap-b02/names/StringName.ts:108-113 | a bad index is RangeError without change; otherwise component i is removed, and a StringName that loses its only component holds one empty component |
| NameB02.Name.Concat | src/adap-b02/names/StringName.ts:115-121 | the components become the old ones followed by the other's as they were before the call, also when a StringName is concatenated with itself |
| NameB02.NewStringName | src/adap-b02/names/StringName.ts:10-18 | a fresh StringName of the source |
| NameB02.NewStringArrayName | src/adap-b02/names/StringArrayName.ts:9-16 | a fresh StringArrayName of a copy of the list |
| NameB02.EmptyButOneComponent | src/adap-b02/names/StringName.ts:74-80 | the StringName "" is empty and yet has one component |
| NameB02.WrittenDataString | src/adap-b02/names/StringName.ts:56-58 | after a non-empty write, a StringName's string is the escape-join of its components |
| NameB02.SelfConcat | src/adap-b02/names/StringName.ts:115-121 | a StringName concatenated with itself holds its components twice |
| NameB02.AsStringRepresentationsDisagree | src/adap-b02/names/StringArrayName.ts:18-22 | `a`, `b` under `.` render with asString("#") as `a#b` from a StringName and as `a.b` from a StringArrayName |
| FileLifecycle.AfterOpen | src/adap-b05/files/File.ts:21-25 | open succeeds iff the file is CLOSED and then makes it OPEN; otherwise InvalidStateException |
| FileLifecycle.AfterClose | src/adap-b05/files/File.ts:52-55 | close succeeds iff the file is OPEN and then makes it CLOSED; otherwise InvalidStateException |
| FileLifecycle.ReadError | src/adap-b05/files/File.ts:27-30 | read fails iff n < 0 (IllegalArgumentException, checked first) or the file is not OPEN (InvalidStateException) |
| FileLifecycle.Step | src/adap-b05/files/File.ts:7-11 | no call leads into DELETED, and a read never changes the state |
| FileLifecycle.NeverDeleted | src/adap-b05/files/File.ts:7-11 | no sequence of calls leads a file that is not deleted into DELETED |
| FileLifecycle.FromCreation | src/adap-b05/files/File.ts:15 | a file created CLOSED is OPEN or CLOSED after any sequence of calls |
| FileLifecycle.OpenCloseCycles | src/adap-b05/files/File.ts:21-25 | after any number of open-close pairs the file is CLOSED again |
| FileLifecycle.Cycles | src/adap-b05/files/File.ts:21-25 | k open-close pairs are 2k calls |
| FileLifecycle.RunAppend | src/adap-b05/files/File.ts:21-55 | running two call sequences one after the other is running their concatenation |
| FileB04.File.constructor | src/adap-b04/files/File.ts:14 | a new file is CLOSED |
| FileB04.File.Open | src/adap-b04/files/File.ts:20-24 | passes iff the file was CLOSED; the new state is the transition's result |
| FileB04.File.Read | src/adap-b04/files/File.ts:26-30 | the read error when there is one; otherwise a fresh buffer of n zero bytes |
| FileB04.File.Close | src/adap-b04/files/File.ts:32-35 | passes iff the file was OPEN; the new state is the transition's result |
| FileB04.File.GetFileState | src/adap-b04/files/File.ts:37-39 | the current state |
| FileB04.Session | src/adap-b04/files/File.ts:20-35 | reading before open, opening twice, a negative count and closing twice are refused; a file is CLOSED after open-read-close |
| FileB05.File.constructor | src/adap-b05/files/File.ts:15 | a new file is CLOSED |
| FileB05.File.Open | src/adap-b05/files/File.ts:21-25 | passes iff the file was CLOSED; the new state is the transition's result |
| FileB05.File.Read | src/adap-b05/files/File.ts:27-45 | the read error when there is one; otherwise a fresh buffer of n bytes, each filled by readNextByte, all zero |
| FileB05.File.ReadNextByte | src/adap-b05/files/File.ts:47-50 | 0 from an open file, MethodFailedException otherwise |
| FileB05.File.Close | src/adap-b05/files/File.ts:52-55 | passes iff the file was OPEN; the new state is the transition's result |
| FileB05.File.GetFileState | src/adap-b05/files/File.ts:57-59 | the current state |
| FileB05.Replay | src/adap-b05/files/File.ts:7-11 | replaying any calls on a file ends in the state Run predicts, which is never DELETED |

## Left out

- The escape code assumes a delimiter that the code's `new RegExp("\\" + delimiter)` reads as
  that literal character: one character that is neither `\` nor an ASCII letter or digit
  (`Codec.RegexSafe`). For other delimiters the pattern becomes a character class, a control
  escape or a back-reference. Members that escape or unescape therefore require it.
- `$` patterns in a replacement string (`$&`, `$1`, ...) are not modelled: `Codec.LiteralReplacement`
  excludes them where a caller-supplied delimiter is the replacement.
- Strings are sequences of Dafny characters, not UTF-16 code units; the hash adds each
  character's code point.
- `null`/`undefined` are modelled only where the code checks for them or the tests pass them:
  constructor sources (`Option`), the b04 and b06 constructor delimiters (`Argument`), the other
  name of `concat` and `isEqual` (`Name?` or `Option`), the entries of a b04 or b06 component
  array (`Option<string>`). An explicit `null` given to `asString` (IllegalArgumentException in
  b04 to b06) is not modelled: its parameter is a string. A `null` component
  passed to a mutator, and the `null` source of the b02/b03 constructors, are not modelled.
- `Number.isInteger` on indices: indices are Dafny integers, so the non-integer case cannot arise.
- The duck-typed `isName` test of the b06 `isEqual` is not modelled: `NameB06.Name.IsEqual` takes
  a name, so the `false` answer for a `null` or non-name argument is not captured.
- `clone` copies fields reflectively (`Object.create` plus `Object.assign`); the model copies the
  `delimiter` and `storage` fields into a fresh object.
- Exception classes are the constructors of one `Exception` datatype; messages and the exception
  hierarchy are not modelled.
- `src/adap-b05/files/Node.ts` and `Directory` are not part of this model: a File's base name,
  parent directory and the node tree behind them are left out, and a File is only its state.
- Self-concatenation (`n.concat(n)`) on a StringArrayName of b02, on the b03 base and on the b05
  base re-reads the growing component count and never ends; those members require
  `other != this`. The b02 StringName copies its components first and is modelled with
  self-concatenation allowed (`NameB02.SelfConcat`).
- The base class of the fourth iteration is not part of this model. `NameB04` puts the b04
  concrete classes on the fifth iteration's `AbstractName`, whose contracts they were written for.
- `toString` is `asDataString`, and `getDelimiterCharacter` of b02, b03 and b06 returns the field;
  these are not separate members.
- `asString`'s default argument (the own delimiter) is not modelled: callers pass the delimiter.
- The doc comment of `Name.ts` says that new components passed to `setComponent`, `insert` and
  `append` are "properly masked"; the code stores them as logical components, and the model
  follows the code (`NameB06.AsStringUnescapesLogicalComponents` shows the consequence).
- The `MethodFailedException` post-checks of asString and asDataString (`result != null`) always
  hold and have no error path in the model; the clone post-check of b05 and b06 likewise.
- The b02 and b03 `asString`/`asDataString` loops re-read `getNoComponents()` on each turn; the
  model computes the component list once, which is the same because nothing changes in between.
- The count and escaping of a StringName are written over unbounded integers: JavaScript numbers
  never overflow for realistic lengths, and the hash's 32-bit wrap-around is modelled explicitly.

## Findings

| source | as written | input that shows it | evidently intended | confidence | as-written member | corrected member |
|---|---|---|---|---|---|---|
| src/adap-b05/names/AbstractName.ts:61-89 | `isEqual` ignores the delimiter, while `getHashCode` hashes `asDataString()`, which is written with the own delimiter | `a.b` under `.` and `a#b` under `#`: equal, hash codes 94741 and 94400 | equal names have equal hash codes, by hashing a delimiter-independent string | not executed | NameB04.EqualNamesDifferentHashes | NameB06.EqualNamesHashEqual |
| src/adap-b02/names/StringArrayName.ts:18-22 | StringArrayName's `asString(d)` joins by its own delimiter and substitutes d for the masked delimiter, where StringName's joins by d | the list `a`, `b` under `.`, rendered with `asString("#")`: `a.b`, while the StringName `a.b` gives `a#b` | both representations join the unescaped components by d | not executed | NameB02.AsStringRepresentationsDisagree | NameB03.Name.AsString |
