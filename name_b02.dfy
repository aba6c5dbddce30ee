/** Iteration b02: the first two names, with no shared base class. StringName keeps
    the delimited string and hands it out as the data string; StringArrayName keeps
    the list. A bad index is a RangeError (a negative one is a plain Error in
    StringArrayName.getComponent), the delimiter is any string (a missing one
    defaults to "."), and the cached count is set once by the constructor and never
    read again. One class stands for both: its `storage` holds the fields of the one
    it is. */
module NameB02 {
  import opened Common
  import Codec

  /** The fields of the two classes, besides the delimiter. */
  datatype Storage =
    | /** StringName: the delimited string and the count cached at construction. */
      StringBacked(name: string, noComponents: int)
    | /** StringArrayName: the list of logical components. */
      ArrayBacked(components: seq<string>)

  /** The logical components: StringName splits its string, StringArrayName holds its list. */
  function ComponentsOf(s: Storage, d: string): seq<string> {
    match s
    case StringBacked(name, _) => Codec.Split(name, d)
    case ArrayBacked(cs) => cs
  }

  /** The fields after a mutation has written the list `cs`: StringName rebuilds its
      string as the escape-join of `cs` (the cached count stays as it was);
      StringArrayName holds `cs`. */
  function Written(s: Storage, d: string, cs: seq<string>): Storage
    requires s.StringBacked? ==> Codec.RegexSafe(d)
  {
    if s.StringBacked? then StringBacked(Codec.EscapeJoin(cs, d), s.noComponents) else ArrayBacked(cs)
  }

  /** Writing a list gives it back as the components, except that StringName turns
      the empty list into one empty component. */
  lemma WrittenComponents(s: Storage, d: string, cs: seq<string>)
    requires s.StringBacked? ==> Codec.RegexSafe(d)
    ensures Written(s, d, cs).StringBacked? == s.StringBacked?
    ensures ComponentsOf(Written(s, d, cs), d) == if s.StringBacked? && cs == [] then [""] else cs
  {
    if s.StringBacked? {
      Codec.SplitEscapeJoinAny(cs, d);
    }
  }

  /** The constructors' delimiter argument: left out or null gives the default. */
  function DelimiterOrDefault(delimiter: Option<string>): (d: string)
    ensures delimiter.Some? ==> d == delimiter.value
    ensures delimiter.None? ==> d == Codec.DefaultDelimiter
  {
    if delimiter.Some? then delimiter.value else Codec.DefaultDelimiter
  }

  class Name {
    const delimiter: string
    var storage: Storage

    constructor (delimiter: string, storage: Storage)
      ensures this.delimiter == delimiter && this.storage == storage
    {
      this.delimiter := delimiter;
      this.storage := storage;
    }

    function Components(): seq<string>
      reads this
    {
      ComponentsOf(storage, delimiter)
    }

    /** The own delimiter is one the escape code can mask (see Codec.RegexSafe). */
    predicate Escapable() {
      Codec.RegexSafe(delimiter)
    }

    /** The current component list: the split of the string, or the stored list. */
    method ReadComponents() returns (cs: seq<string>)
      ensures cs == Components()
    {
      if storage.StringBacked? {
        cs := Codec.SplitComponents(storage.name, delimiter);
      } else {
        cs := storage.components;
      }
    }

    /** asString(d). StringName unescapes every component against its own delimiter
        (`\` + own delimiter becomes the own delimiter) and joins by `d`;
        StringArrayName unescapes `\` + own delimiter to `d` and joins by its own
        delimiter. */
    method AsString(d: string) returns (s: string)
      requires Escapable() && (storage.ArrayBacked? ==> Codec.LiteralReplacement(d))
      ensures storage.StringBacked? ==> s == Codec.Join(Codec.MapUnescape(Components(), delimiter, delimiter), d)
      ensures storage.ArrayBacked? ==> s == Codec.Join(Codec.MapUnescape(Components(), delimiter, d), delimiter)
    {
      var cs := ReadComponents();
      if storage.StringBacked? {
        s := Codec.Join(Codec.MapUnescape(cs, delimiter, delimiter), d);
      } else {
        s := Codec.Join(Codec.MapUnescape(cs, delimiter, d), delimiter);
      }
    }

    /** asDataString: StringName hands out its string as it is; StringArrayName
        escapes its components against its delimiter and joins them by it. */
    method AsDataString() returns (s: string)
      requires storage.ArrayBacked? ==> Escapable()
      ensures storage.StringBacked? ==> s == storage.name
      ensures storage.ArrayBacked? ==> s == Codec.EscapeJoin(Components(), delimiter)
    {
      if storage.StringBacked? {
        s := storage.name;
      } else {
        s := Codec.EscapeJoin(storage.components, delimiter);
      }
    }

    /** isEmpty: StringName tests its string for "", StringArrayName its list for []. */
    method IsEmpty() returns (b: bool)
      ensures storage.StringBacked? ==> (b <==> storage.name == "")
      ensures storage.ArrayBacked? ==> (b <==> Components() == [])
    {
      if storage.StringBacked? {
        b := |storage.name| == 0;
      } else {
        b := |storage.components| == 0;
      }
    }

    /** getNoComponents: StringName re-splits its string; the cached count plays no part. */
    method GetNoComponents() returns (n: int)
      ensures n == |Components()|
    {
      var cs := ReadComponents();
      n := |cs|;
    }

    /** getComponent: an index at or past the count is a RangeError; a negative index
        is a RangeError in StringName and a plain Error in StringArrayName. */
    method GetComponent(i: int) returns (r: Result<string>)
      ensures 0 <= i < |Components()| ==> r == Ok(Components()[i])
      ensures i < 0 ==> r == Err(if storage.StringBacked? then RangeError else Error)
      ensures i >= |Components()| ==> r == Err(RangeError)
    {
      var cs := ReadComponents();
      if storage.ArrayBacked? && i < 0 {
        return Err(Error);
      }
      if i < 0 || i >= |cs| {
        return Err(RangeError);
      }
      r := Ok(cs[i]);
    }

    /** setComponent: the component at `i` is replaced. */
    method SetComponent(i: int, c: string) returns (o: Outcome)
      requires storage.StringBacked? ==> Escapable()
      modifies this
      ensures var cs := old(Components());
        if 0 <= i < |cs| then
          o == Pass && storage == Written(old(storage), delimiter, cs[i := c]) && Components() == cs[i := c]
        else
          o == Fail(RangeError) && storage == old(storage)
    {
      var cs := ReadComponents();
      if i < 0 || i >= |cs| {
        return Fail(RangeError);
      }
      cs := cs[i := c];
      WrittenComponents(storage, delimiter, cs);
      storage := Written(storage, delimiter, cs);
      o := Pass;
    }

    /** insert: StringName accepts every index in [0, count], StringArrayName only
        those in [0, count). */
    method Insert(i: int, c: string) returns (o: Outcome)
      requires storage.StringBacked? ==> Escapable()
      modifies this
      ensures var cs := old(Components());
        if 0 <= i < |cs| || (old(storage).StringBacked? && i == |cs|) then
          o == Pass && storage == Written(old(storage), delimiter, cs[..i] + [c] + cs[i..])
          && Components() == cs[..i] + [c] + cs[i..]
        else
          o == Fail(RangeError) && storage == old(storage)
    {
      var cs := ReadComponents();
      if storage.StringBacked? && (i < 0 || i > |cs|) {
        return Fail(RangeError);
      }
      if storage.ArrayBacked? && (i < 0 || i >= |cs|) {
        return Fail(RangeError);
      }
      cs := cs[..i] + [c] + cs[i..];
      WrittenComponents(storage, delimiter, cs);
      storage := Written(storage, delimiter, cs);
      o := Pass;
    }

    /** append: `c` becomes the last component. */
    method Append(c: string)
      requires storage.StringBacked? ==> Escapable()
      modifies this
      ensures storage == Written(old(storage), delimiter, old(Components()) + [c])
      ensures Components() == old(Components()) + [c]
    {
      var cs := ReadComponents();
      cs := cs + [c];
      WrittenComponents(storage, delimiter, cs);
      storage := Written(storage, delimiter, cs);
    }

    /** remove: the component at `i` is taken out; a StringName cannot hold the empty
        list, so removing its only component leaves one empty component. */
    method Remove(i: int) returns (o: Outcome)
      requires storage.StringBacked? ==> Escapable()
      modifies this
      ensures var cs := old(Components());
        if 0 <= i < |cs| then
          o == Pass && storage == Written(old(storage), delimiter, cs[..i] + cs[i + 1..])
          && Components() == if old(storage).StringBacked? && |cs| == 1 then [""] else cs[..i] + cs[i + 1..]
        else
          o == Fail(RangeError) && storage == old(storage)
    {
      var cs := ReadComponents();
      if i < 0 || i >= |cs| {
        return Fail(RangeError);
      }
      cs := cs[..i] + cs[i + 1..];
      WrittenComponents(storage, delimiter, cs);
      storage := Written(storage, delimiter, cs);
      o := Pass;
    }

    /** concat. StringName collects its own components and those of `other` in a
        local list and rebuilds once, so it may be concatenated with itself;
        StringArrayName appends the components of `other` one by one, re-reading its
        count before every step. */
    method Concat(other: Name)
      requires storage.ArrayBacked? ==> other != this
      requires storage.StringBacked? ==> Escapable()
      modifies this
      ensures Components() == old(Components()) + old(other.Components())
      ensures old(storage).StringBacked? ==>
        storage == Written(old(storage), delimiter, old(Components()) + old(other.Components()))
      ensures old(storage).ArrayBacked? ==> storage == ArrayBacked(old(Components()) + old(other.Components()))
    {
      if storage.StringBacked? {
        var cs := ReadComponents();
        var i := 0;
        var bound := other.GetNoComponents();
        while i < bound
          invariant storage == old(storage) && other.Components() == old(other.Components())
          invariant bound == |other.Components()| && 0 <= i <= bound
          invariant cs == Components() + other.Components()[..i]
          decreases bound - i
        {
          var c := other.GetComponent(i);
          assert other.Components()[..i + 1] == other.Components()[..i] + [other.Components()[i]];
          cs := cs + [c.value];
          i := i + 1;
          bound := other.GetNoComponents();
        }
        assert other.Components()[..i] == other.Components();
        WrittenComponents(storage, delimiter, cs);
        storage := Written(storage, delimiter, cs);
      } else {
        var i := 0;
        var bound := other.GetNoComponents();
        while i < bound
          invariant bound == |other.Components()| && 0 <= i <= bound
          invariant other.Components() == old(other.Components())
          invariant storage == ArrayBacked(old(Components()) + other.Components()[..i])
          decreases bound - i
        {
          var c := other.GetComponent(i);
          Append(c.value);
          assert other.Components()[..i + 1] == other.Components()[..i] + [other.Components()[i]];
          i := i + 1;
          bound := other.GetNoComponents();
        }
        assert other.Components()[..i] == other.Components();
      }
    }
  }

  /** new StringName(source, delimiter?): the count is cached from the split. */
  method NewStringName(source: string, delimiter: Option<string>) returns (n: Name)
    ensures fresh(n) && n.delimiter == DelimiterOrDefault(delimiter)
    ensures n.storage == StringBacked(source, |Codec.Split(source, n.delimiter)|)
  {
    var d := DelimiterOrDefault(delimiter);
    var cs := Codec.SplitComponents(source, d);
    n := new Name(d, StringBacked(source, |cs|));
  }

  /** new StringArrayName(source, delimiter?): stores a copy of the list. */
  method NewStringArrayName(source: seq<string>, delimiter: Option<string>) returns (n: Name)
    ensures fresh(n) && n.delimiter == DelimiterOrDefault(delimiter) && n.storage == ArrayBacked(source)
  {
    n := new Name(DelimiterOrDefault(delimiter), ArrayBacked(source));
  }

  // ---------------------------------------------------------------------------
  // Properties
  // ---------------------------------------------------------------------------

  /** The empty StringName is empty by isEmpty but still has one component. */
  method EmptyButOneComponent() returns (empty: bool, count: int)
    ensures empty && count == 1
  {
    var n := NewStringName("", None);
    empty := n.IsEmpty();
    count := n.GetNoComponents();
  }

  /** After a mutation a StringName's data string is the escape-join of its
      components, which splits back into them. */
  lemma WrittenDataString(s: Storage, d: string, cs: seq<string>)
    requires s.StringBacked? && Codec.RegexSafe(d) && cs != []
    ensures Written(s, d, cs).name == Codec.EscapeJoin(ComponentsOf(Written(s, d, cs), d), d)
  {
    WrittenComponents(s, d, cs);
  }

  /** A StringName may be concatenated with itself: its components come out twice. */
  method SelfConcat(n: Name) returns (doubled: seq<string>)
    requires n.storage.StringBacked? && n.Escapable()
    modifies n
    ensures doubled == old(n.Components()) + old(n.Components())
  {
    n.Concat(n);
    doubled := n.Components();
  }

  /** The two asString methods disagree: for the components `a` and `b` under '.',
      asString("#") is `a#b` for the StringName and `a.b` for the StringArrayName. */
  method AsStringRepresentationsDisagree() returns (onString: string, onArray: string)
    ensures onString == "a#b" && onArray == "a.b"
  {
    Codec.SplitPlainJoin(["a", "b"], ".");
    assert Codec.Join(["a", "b"], ".") == "a.b";
    var s := NewStringName("a.b", None);
    var a := NewStringArrayName(["a", "b"], None);
    assert s.Components() == ["a", "b"];
    Codec.JoinUnescapePlain(["a", "b"], ".", ".", "#");
    Codec.JoinUnescapePlain(["a", "b"], ".", "#", ".");
    onString := s.AsString("#");
    onArray := a.AsString("#");
  }
}
