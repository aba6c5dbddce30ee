/** Iteration b06: names as immutable value objects. The abstract base class is the
    datatype's member functions, written once over the two primitives every
    representation supplies (Snapshot, the component list, and CreateWithComponents,
    the builder); the two constructors of the datatype are the two representations. */
module NameB06 {
  import opened Common
  import Codec
  import Hashing

  datatype Name =
    | /** One escaped string and its cached component count. */
      StringName(delimiter: char, name: string, noComponents: int)
    | /** The list of logical components. */
      StringArrayName(delimiter: char, components: seq<string>)
  {
    /** The invariant of assertInvariant. The delimiter, a char, always has length 1;
        StringName's cached count is the length of the split. */
    predicate Valid() {
      StringName? ==> noComponents == |Codec.Split(name, [delimiter])|
    }

    /** The own delimiter is one the escape code can mask (see Codec.RegexSafe). */
    predicate Escapable() {
      Codec.RegexSafe([delimiter])
    }

    /** getComponentsSnapshot: the logical components. */
    function Snapshot(): seq<string> {
      if StringName? then Codec.Split(name, [delimiter]) else components
    }

    /** getComponentsSnapshot, as the code computes it: StringName runs the splitter,
        StringArrayName copies its list. */
    method GetComponentsSnapshot() returns (cs: seq<string>)
      ensures cs == Snapshot()
    {
      if StringName? {
        cs := Codec.SplitComponents(name, [delimiter]);
      } else {
        cs := components;
      }
    }

    /** createWithComponents: a new instance of the same representation with the same
        delimiter. StringName escapes and joins the list and reparses it, so it gives
        back the list unless the list is empty. */
    function CreateWithComponents(cs: seq<string>): (r: Name)
      requires StringName? ==> Escapable()
      ensures r.Valid() && r.delimiter == delimiter && r.StringName? == StringName?
      ensures r.Snapshot() == if StringName? && cs == [] then [""] else cs
    {
      if StringName? then
        var rebuilt := Codec.EscapeJoin(cs, [delimiter]);
        Codec.SplitEscapeJoinAny(cs, [delimiter]);
        NewStringName(Some(rebuilt), Given([delimiter])).value
      else
        StringArrayName(delimiter, cs)
    }

    /** getNoComponents: StringName returns its cached count, the base the snapshot's length. */
    function GetNoComponents(): (n: int)
      requires Valid()
      ensures n == |Snapshot()|
    {
      if StringName? then noComponents else |components|
    }

    /** isEmpty. */
    function IsEmpty(): (b: bool)
      requires Valid()
      ensures b <==> GetNoComponents() == 0
    {
      |Snapshot()| == 0
    }

    /** getComponent: an index outside [0, count) is an IllegalArgumentException. */
    function GetComponent(i: int): (r: Result<string>)
      ensures r.Ok? <==> 0 <= i < |Snapshot()|
      ensures r.Ok? ==> r.value == Snapshot()[i]
      ensures r.Err? ==> r.error == IllegalArgumentException
    {
      var cs := Snapshot();
      if 0 <= i < |cs| then Ok(cs[i]) else Err(IllegalArgumentException)
    }

    /** setComponent: the edited copy as a new name. */
    function SetComponent(i: int, c: string): (r: Result<Name>)
      requires Valid() && (StringName? ==> Escapable())
      ensures !(0 <= i < |Snapshot()|) ==> r == Err(IllegalArgumentException)
      ensures 0 <= i < |Snapshot()| ==>
        r.Ok? && r.value.Valid() && r.value.delimiter == delimiter && r.value.StringName? == StringName?
        && r.value.Snapshot() == Snapshot()[i := c]
    {
      var cs := Snapshot();
      if 0 <= i < |cs| then Ok(CreateWithComponents(cs[i := c])) else Err(IllegalArgumentException)
    }

    /** insert: the index may also be the count. */
    function Insert(i: int, c: string): (r: Result<Name>)
      requires Valid() && (StringName? ==> Escapable())
      ensures !(0 <= i <= |Snapshot()|) ==> r == Err(IllegalArgumentException)
      ensures 0 <= i <= |Snapshot()| ==>
        r.Ok? && r.value.Valid() && r.value.delimiter == delimiter && r.value.StringName? == StringName?
        && r.value.Snapshot() == Snapshot()[..i] + [c] + Snapshot()[i..]
    {
      var cs := Snapshot();
      if 0 <= i <= |cs| then Ok(CreateWithComponents(cs[..i] + [c] + cs[i..])) else Err(IllegalArgumentException)
    }

    /** append: never fails on an index. */
    function Append(c: string): (r: Name)
      requires Valid() && (StringName? ==> Escapable())
      ensures r.Valid() && r.delimiter == delimiter && r.StringName? == StringName?
      ensures r.Snapshot() == Snapshot() + [c]
    {
      CreateWithComponents(Snapshot() + [c])
    }

    /** remove: StringName cannot represent the empty list, so removing its only
        component leaves one empty component. */
    function Remove(i: int): (r: Result<Name>)
      requires Valid() && (StringName? ==> Escapable())
      ensures !(0 <= i < |Snapshot()|) ==> r == Err(IllegalArgumentException)
      ensures 0 <= i < |Snapshot()| ==>
        r.Ok? && r.value.Valid() && r.value.delimiter == delimiter && r.value.StringName? == StringName?
        && r.value.Snapshot() == if StringName? && |Snapshot()| == 1 then [""] else Snapshot()[..i] + Snapshot()[i + 1..]
    {
      var cs := Snapshot();
      if 0 <= i < |cs| then Ok(CreateWithComponents(cs[..i] + cs[i + 1..])) else Err(IllegalArgumentException)
    }

    /** concat: the components of `other`, read through getNoComponents and
        getComponent, are pushed onto a copy of the own snapshot. */
    method Concat(other: Option<Name>) returns (r: Result<Name>)
      requires Valid() && (StringName? ==> Escapable())
      requires other.Some? ==> other.value.Valid()
      ensures other.None? ==> r == Err(IllegalArgumentException)
      ensures other.Some? ==>
        r.Ok? && r.value.Valid() && r.value.delimiter == delimiter && r.value.StringName? == StringName?
        && r.value.Snapshot() == Snapshot() + other.value.Snapshot()
    {
      if other.None? {
        return Err(IllegalArgumentException);
      }
      var that := other.value;
      var cs := GetComponentsSnapshot();
      var i := 0;
      while i < that.GetNoComponents()
        invariant 0 <= i <= |that.Snapshot()|
        invariant cs == Snapshot() + that.Snapshot()[..i]
      {
        var c := that.GetComponent(i);
        assert that.Snapshot()[..i + 1] == that.Snapshot()[..i] + [that.Snapshot()[i]];
        cs := cs + [c.value];
        i := i + 1;
      }
      assert that.Snapshot()[..i] == that.Snapshot();
      r := Ok(CreateWithComponents(cs));
    }

    /** asDataString: the components escaped against the own delimiter, joined by it.
        It reparses, under the own delimiter, to the components; the empty list comes
        back as one empty component. */
    function AsDataString(): (s: string)
      requires Escapable()
      ensures Codec.Split(s, [delimiter]) == if Snapshot() == [] then [""] else Snapshot()
    {
      Codec.SplitEscapeJoinAny(Snapshot(), [delimiter]);
      Codec.EscapeJoin(Snapshot(), [delimiter])
    }

    /** asString(d): d must be one character; each component has `\` + own delimiter
        replaced by d and `\\` by `\`, and the results are joined by d without
        re-escaping. */
    function AsString(d: string): (r: Result<string>)
      requires Escapable()
      ensures r.Err? <==> |d| != 1
      ensures r.Err? ==> r.error == IllegalArgumentException
      ensures r.Ok? && (forall i :: 0 <= i < |Snapshot()| ==> Codec.EscapeCharacter !in Snapshot()[i]) ==>
        r.value == Codec.Join(Snapshot(), d)
    {
      if |d| != 1 then Err(IllegalArgumentException)
      else
        Codec.MapUnescapePlain(Snapshot(), [delimiter], d);
        Ok(Codec.Join(Codec.MapUnescape(Snapshot(), [delimiter], d), d))
    }

    /** getCanonicalDataString: the components escaped against the default delimiter. */
    function CanonicalDataString(): (s: string)
      ensures Codec.Split(s, Codec.DefaultDelimiter) == if Snapshot() == [] then [""] else Snapshot()
    {
      Codec.SplitEscapeJoinAny(Snapshot(), Codec.DefaultDelimiter);
      Codec.EscapeJoin(Snapshot(), Codec.DefaultDelimiter)
    }

    /** isEqual: the same number of components and equal components at every index;
        the delimiter plays no part. */
    method IsEqual(other: Name) returns (b: bool)
      requires other.Valid()
      ensures b <==> Snapshot() == other.Snapshot()
    {
      var cs := GetComponentsSnapshot();
      if |cs| != other.GetNoComponents() {
        return false;
      }
      for i := 0 to |cs|
        invariant cs[..i] == other.Snapshot()[..i]
      {
        if other.GetComponent(i) != Ok(cs[i]) {
          return false;
        }
        assert cs[..i + 1] == cs[..i] + [cs[i]];
        assert other.Snapshot()[..i + 1] == other.Snapshot()[..i] + [other.Snapshot()[i]];
      }
      assert cs == cs[..|cs|];
      assert other.Snapshot() == other.Snapshot()[..|cs|];
      return true;
    }

    /** getHashCode: the 32-bit string hash of the canonical data string. */
    method GetHashCode() returns (h: int)
      ensures h == Hashing.HashOf(CanonicalDataString())
    {
      var cs := GetComponentsSnapshot();
      var canonical := Codec.EscapeJoin(cs, Codec.DefaultDelimiter);
      h := Hashing.StringHash(canonical);
    }

    /** clone: a new instance built from the snapshot, checked to be equal. */
    method Clone() returns (r: Result<Name>)
      requires Valid() && (StringName? ==> Escapable())
      ensures r.Ok? && r.value.Valid() && r.value.delimiter == delimiter && r.value.StringName? == StringName?
      ensures r.value.Snapshot() == Snapshot()
    {
      var cs := GetComponentsSnapshot();
      var cloned := CreateWithComponents(cs);
      var equal := cloned.IsEqual(this);
      if !equal {
        return Err(MethodFailedException);
      }
      r := Ok(cloned);
    }
  }

  /** new StringName(source, delimiter?): a null source or a delimiter that is not one
      character is rejected; the count is cached from the split. */
  function NewStringName(source: Option<string>, delimiter: Argument<string>): (r: Result<Name>)
    ensures r.Err? <==> source.None? || Codec.DelimiterArgument(delimiter).Err?
    ensures r.Err? ==> r.error == IllegalArgumentException
    ensures r.Ok? ==> r.value.StringName? && r.value.Valid() && r.value.name == source.value
                      && r.value.delimiter == Codec.DelimiterArgument(delimiter).value
  {
    if source.None? then Err(IllegalArgumentException)
    else match Codec.DelimiterArgument(delimiter)
      case Err(e) => Err(e)
      case Ok(d) => Ok(StringName(d, source.value, |Codec.Split(source.value, [d])|))
  }

  /** new StringArrayName(source, delimiter?): a null source or a bad delimiter is
      rejected; the list is copied, and a null entry in it fails the closing invariant
      check with InvalidStateException. */
  function NewStringArrayName(source: Option<seq<Option<string>>>, delimiter: Argument<string>): (r: Result<Name>)
    ensures source.None? || Codec.DelimiterArgument(delimiter).Err? ==> r == Err(IllegalArgumentException)
    ensures source.Some? && Codec.DelimiterArgument(delimiter).Ok? ==>
      if exists k :: 0 <= k < |source.value| && source.value[k].None? then r == Err(InvalidStateException)
      else r.Ok? && r.value.StringArrayName? && r.value.Valid() && r.value.Snapshot() == Values(source.value)
           && r.value.delimiter == Codec.DelimiterArgument(delimiter).value
  {
    if source.None? then Err(IllegalArgumentException)
    else match Codec.DelimiterArgument(delimiter)
      case Err(e) => Err(e)
      case Ok(d) =>
        if exists k :: 0 <= k < |source.value| && source.value[k].None? then Err(InvalidStateException)
        else Ok(StringArrayName(d, Values(source.value)))
  }

  // ---------------------------------------------------------------------------
  // Properties of the value type
  // ---------------------------------------------------------------------------

  /** A StringName is never empty: even the empty string holds one component. */
  lemma StringNameNeverEmpty(n: Name)
    requires n.StringName? && n.Valid()
    ensures !n.IsEmpty() && n.GetNoComponents() >= 1
  {
  }

  /** The two representations of one component list under one delimiter answer every
      query alike and give equal results for every operation, except remove on the only
      component: StringName then keeps one empty component, StringArrayName none. */
  lemma RepresentationsAgree(s: Name, a: Name, i: int, c: string)
    requires s.StringName? && s.Valid() && s.Escapable() && a.StringArrayName?
    requires s.delimiter == a.delimiter && s.Snapshot() == a.Snapshot()
    ensures s.GetNoComponents() == a.GetNoComponents() && s.IsEmpty() == a.IsEmpty()
    ensures s.GetComponent(i) == a.GetComponent(i)
    ensures s.AsDataString() == a.AsDataString() && s.AsString([s.delimiter]) == a.AsString([a.delimiter])
    ensures s.CanonicalDataString() == a.CanonicalDataString()
    ensures s.SetComponent(i, c).Ok? ==> s.SetComponent(i, c).value.Snapshot() == a.SetComponent(i, c).value.Snapshot()
    ensures s.Insert(i, c).Ok? ==> s.Insert(i, c).value.Snapshot() == a.Insert(i, c).value.Snapshot()
    ensures s.Append(c).Snapshot() == a.Append(c).Snapshot()
    ensures s.Remove(i).Ok? ==>
      (s.Remove(i).value.Snapshot() == a.Remove(i).value.Snapshot() <==> s.GetNoComponents() > 1)
  {
  }

  /** Equal names have equal hash inputs, whatever their delimiters and representations. */
  lemma EqualNamesHashEqual(a: Name, b: Name)
    requires a.Snapshot() == b.Snapshot()
    ensures Hashing.HashOf(a.CanonicalDataString()) == Hashing.HashOf(b.CanonicalDataString())
  {
  }

  /** The canonical data string determines the components, except that no components
      and one empty component share the canonical string "". */
  lemma CanonicalDataStringDeterminesComponents(a: Name, b: Name)
    requires a.CanonicalDataString() == b.CanonicalDataString()
    ensures a.Snapshot() == b.Snapshot()
            || (a.Snapshot() == [] && b.Snapshot() == [""])
            || (a.Snapshot() == [""] && b.Snapshot() == [])
  {
    Codec.SplitEscapeJoinAny(a.Snapshot(), Codec.DefaultDelimiter);
    Codec.SplitEscapeJoinAny(b.Snapshot(), Codec.DefaultDelimiter);
  }

  /** The one collision the canonical string has: an empty StringArrayName and one with
      a single empty component are not equal but hash alike. */
  lemma EmptyCollidesWithEmptyComponent(d: char)
    ensures StringArrayName(d, []).CanonicalDataString() == StringArrayName(d, [""]).CanonicalDataString()
    ensures StringArrayName(d, []).Snapshot() != StringArrayName(d, [""]).Snapshot()
  {
    Codec.EscapePlain("", Codec.DefaultDelimiter);
  }

  /** asString unescapes the components once more, although they are already logical:
      a component that reads as the escape of some `x` renders as `x`, and differs from
      `x` whenever `x` holds an escape character. */
  lemma AsStringUnescapesLogicalComponents(n: Name, x: string)
    requires n.Escapable() && n.Snapshot() == [Codec.EscapeComponent(x, [n.delimiter])]
    ensures n.AsString([n.delimiter]) == Ok(x)
    ensures Codec.EscapeCharacter in x ==> n.Snapshot() != [x]
  {
    Codec.UnescapeEscapeInverse(x, [n.delimiter]);
    assert Codec.MapUnescape(n.Snapshot(), [n.delimiter], [n.delimiter]) == [x];
    if Codec.EscapeCharacter in x {
      Codec.EscapeComponentIsCharMap(x, [n.delimiter]);
      Codec.EscapeCharsLength(x, n.delimiter);
    }
  }

  // Examples of the interface documentation and the value object tests

  /** "oss.cs.fau.de" has four components. */
  lemma FourComponentsExample(n: Name)
    requires NewStringName(Some("oss.cs.fau.de"), Omitted) == Ok(n)
    ensures n.Snapshot() == ["oss", "cs", "fau", "de"]
  {
    var cs := ["oss", "cs", "fau", "de"];
    Codec.SplitPlainJoin(cs, ".");
    assert Codec.Join(cs, ".") == "oss.cs.fau.de";
  }

  /** "///" under the delimiter '/' has four empty components. */
  lemma EmptyComponentsExample(n: Name)
    requires NewStringName(Some("///"), Given("/")) == Ok(n)
    ensures n.Snapshot() == ["", "", "", ""]
  {
    var cs := ["", "", "", ""];
    Codec.SplitPlainJoin(cs, "/");
    assert Codec.Join(cs, "/") == "///";
  }

  /** `Oh\./\./\.` under '.' is one component: every dot in it is masked. */
  lemma MaskedDotsExample(n: Name)
    requires NewStringName(Some("Oh\\./\\./\\."), Omitted) == Ok(n)
    ensures n.GetNoComponents() == 1
  {
    // the counts, character by character
    var s: string := [];
    Codec.CountsAppend(s, 'O', '.');
    s := s + ['O'];
    Codec.CountsAppend(s, 'h', '.');
    s := s + ['h'];
    Codec.CountsAppend(s, '\\', '.');
    s := s + ['\\'];
    Codec.CountsAppend(s, '.', '.');
    s := s + ['.'];
    Codec.CountsAppend(s, '/', '.');
    s := s + ['/'];
    Codec.CountsAppend(s, '\\', '.');
    s := s + ['\\'];
    Codec.CountsAppend(s, '.', '.');
    s := s + ['.'];
    Codec.CountsAppend(s, '/', '.');
    s := s + ['/'];
    Codec.CountsAppend(s, '\\', '.');
    s := s + ['\\'];
    Codec.CountsAppend(s, '.', '.');
    s := s + ['.'];
    assert n.name == s;
    Codec.SplitCount(n.name, ".");
  }

  /** A masked delimiter: `oss\\#cs#fau#de` under '#' has the three components
      `oss#cs`, `fau` and `de` ... */
  lemma MaskedDelimiterExample(n: Name)
    requires NewStringName(Some("oss\\#cs#fau#de"), Given("#")) == Ok(n)
    ensures n.Snapshot() == ["oss#cs", "fau", "de"] && n.GetNoComponents() == 3
  {
    Codec.MaskedEscapeJoinThree();
    Codec.SplitEscapeJoin(["oss#cs", "fau", "de"], "#");
  }

  /** ... and asString(".") joins them by '.' without re-escaping. */
  lemma MaskedDelimiterRendering(n: Name)
    requires n.delimiter == '#' && n.Snapshot() == ["oss#cs", "fau", "de"]
    ensures n.AsString(".") == Ok(Codec.Join(["oss#cs", "fau", "de"], "."))
  {
    var cs := n.Snapshot();
    assert Codec.EscapeCharacter !in cs[0] && Codec.EscapeCharacter !in cs[1] && Codec.EscapeCharacter !in cs[2];
    assert forall i :: 0 <= i < |cs| ==> Codec.EscapeCharacter !in cs[i];
  }

  /** setComponent, insert and remove each give a new name and leave their receiver as
      it was. */
  lemma SetInsertRemoveExample(base: Name)
    requires NewStringName(Some("oss.cs.fau.de"), Omitted) == Ok(base)
    ensures base.Snapshot() == ["oss", "cs", "fau", "de"]
      && var edited := base.SetComponent(1, "systems").value;
      edited.Snapshot() == ["oss", "systems", "fau", "de"]
      && var inserted := edited.Insert(2, "group").value;
      inserted.Snapshot() == ["oss", "systems", "group", "fau", "de"]
      && inserted.Remove(0).value.Snapshot() == ["systems", "group", "fau", "de"]
  {
    FourComponentsExample(base);
    var edited := base.SetComponent(1, "systems").value;
    assert edited.Snapshot() == ["oss", "systems", "fau", "de"];
    var inserted := edited.Insert(2, "group").value;
    assert edited.Snapshot()[..2] == ["oss", "systems"];
    assert edited.Snapshot()[2..] == ["fau", "de"];
    assert inserted.Snapshot() == ["oss", "systems", "group", "fau", "de"];
    assert inserted.Snapshot()[1..] == ["systems", "group", "fau", "de"];
  }

  /** A StringName with a masked delimiter equals the StringArrayName of its logical
      components and has its hash code; appending a component breaks the equality. */
  lemma CrossRepresentationExample(s: Name, a: Name)
    requires NewStringName(Some("oss\\#cs#fau"), Given("#")) == Ok(s)
    requires NewStringArrayName(Some([Some("oss#cs"), Some("fau")]), Given("#")) == Ok(a)
    ensures s.Snapshot() == a.Snapshot()
    ensures Hashing.HashOf(s.CanonicalDataString()) == Hashing.HashOf(a.CanonicalDataString())
    ensures s.Snapshot() != a.Append("team").Snapshot()
  {
    Codec.MaskedEscapeJoinTwo();
    Codec.SplitEscapeJoin(["oss#cs", "fau"], "#");
    EqualNamesHashEqual(s, a);
  }

  /** `a.b.c` under the default delimiter has the components a, b and c. */
  lemma DotSeparatedExample(n: Name)
    requires NewStringName(Some("a.b.c"), Omitted) == Ok(n)
    ensures n.Snapshot() == ["a", "b", "c"]
  {
    var cs := ["a", "b", "c"];
    Codec.SplitPlainJoin(cs, ".");
    assert Codec.Join(cs, ".") == "a.b.c";
  }

  /** `a#b#c` under '#' has the components a, b and c. */
  lemma HashSeparatedExample(n: Name)
    requires NewStringName(Some("a#b#c"), Given("#")) == Ok(n)
    ensures n.Snapshot() == ["a", "b", "c"]
  {
    var cs := ["a", "b", "c"];
    Codec.SplitPlainJoin(cs, "#");
    assert Codec.Join(cs, "#") == "a#b#c";
  }

  /** `a.b.c` and `a#b#c` under '#' are equal names with equal hash codes. */
  lemma DelimiterIndependentExample(dot: Name, hash: Name)
    requires NewStringName(Some("a.b.c"), Omitted) == Ok(dot)
    requires NewStringName(Some("a#b#c"), Given("#")) == Ok(hash)
    ensures dot.Snapshot() == hash.Snapshot()
    ensures Hashing.HashOf(dot.CanonicalDataString()) == Hashing.HashOf(hash.CanonicalDataString())
  {
    DotSeparatedExample(dot);
    HashSeparatedExample(hash);
    EqualNamesHashEqual(dot, hash);
  }

  /** The rejected arguments of the precondition tests. */
  lemma IllegalArgumentExamples()
    ensures NewStringName(None, Omitted) == Err(IllegalArgumentException)
    ensures NewStringArrayName(None, Omitted) == Err(IllegalArgumentException)
    ensures NewStringName(Some("abc"), Given("##")) == Err(IllegalArgumentException)
    ensures NewStringArrayName(Some([Some("abc")]), Given("")) == Err(IllegalArgumentException)
    ensures var n := StringArrayName('.', ["oss", "cs"]);
      n.GetComponent(-1).Err? && n.Insert(5, "x").Err? && n.Remove(5).Err?
    ensures NewStringName(Some("oss"), Omitted).value.AsString("") == Err(IllegalArgumentException)
    ensures NewStringName(Some("a.b"), Null) == Err(IllegalArgumentException)
    ensures NewStringArrayName(Some([Some("a.b")]), Null) == Err(IllegalArgumentException)
    ensures NewStringArrayName(Some([Some("oss"), None]), Omitted) == Err(InvalidStateException)
  {
  }

  /** concat on an immutable name may take the name itself: the masked list
      ["oss#cs", "fau", "de"] under '#' concatenated with itself has six components and
      the doubled data string. */
  method SelfConcatExample() returns (r: Result<Name>)
    ensures r.Ok? && r.value.Valid() && r.value.GetNoComponents() == 6
    ensures r.value.Escapable()
    ensures var half := "oss\\#cs#fau#de"; r.value.AsDataString() == half + "#" + half
  {
    var cs := ["oss#cs", "fau", "de"];
    var n := StringArrayName('#', cs);
    r := n.Concat(Some(n));
    assert r.value.Snapshot() == cs + cs;
    Codec.MaskedEscapeJoinThree();
    Codec.EscapeJoinConcat(cs, cs, "#");
    assert r.value.AsDataString() == Codec.EscapeJoin(cs + cs, "#");
  }
}
