/** Iteration b03: mutable names without contracts. A bad index is a RangeError, the
    delimiter is any string (a missing one defaults to "."), and StringName's cached
    count is set once by the constructor and never read again. One class stands for
    both concrete classes: its `storage` holds the fields of the one it is. */
module NameB03 {
  import opened Common
  import Codec
  import Hashing

  /** The fields of the two concrete classes. */
  datatype Storage =
    | /** StringName: the escaped string and the count cached at construction. */
      StringBacked(name: string, noComponents: int)
    | /** StringArrayName: the list of logical components. */
      ArrayBacked(components: seq<string>)

  /** The logical components: StringName splits its string, StringArrayName holds its list. */
  function ComponentsOf(s: Storage, d: string): seq<string> {
    match s
    case StringBacked(name, _) => Codec.Split(name, d)
    case ArrayBacked(cs) => cs
  }

  /** The fields after a mutation has written the list `cs`: StringName rebuilds its
      string as the escape-join of `cs` (the cached count stays as it was);
      StringArrayName holds `cs`. */
  function Written(s: Storage, d: string, cs: seq<string>): Storage
    requires s.StringBacked? ==> Codec.RegexSafe(d)
  {
    if s.StringBacked? then StringBacked(Codec.EscapeJoin(cs, d), s.noComponents) else ArrayBacked(cs)
  }

  /** Writing a list gives it back as the components, except that StringName turns
      the empty list into one empty component. */
  lemma WrittenComponents(s: Storage, d: string, cs: seq<string>)
    requires s.StringBacked? ==> Codec.RegexSafe(d)
    ensures Written(s, d, cs).StringBacked? == s.StringBacked?
    ensures ComponentsOf(Written(s, d, cs), d) == if s.StringBacked? && cs == [] then [""] else cs
  {
    if s.StringBacked? {
      Codec.SplitEscapeJoinAny(cs, d);
    }
  }

  /** The constructors' delimiter argument: left out or null gives the default. */
  function DelimiterOrDefault(delimiter: Option<string>): (d: string)
    ensures delimiter.Some? ==> d == delimiter.value
    ensures delimiter.None? ==> d == Codec.DefaultDelimiter
  {
    if delimiter.Some? then delimiter.value else Codec.DefaultDelimiter
  }

  class Name {
    const delimiter: string
    var storage: Storage

    constructor (delimiter: string, storage: Storage)
      ensures this.delimiter == delimiter && this.storage == storage
    {
      this.delimiter := delimiter;
      this.storage := storage;
    }

    function Components(): seq<string>
      reads this
    {
      ComponentsOf(storage, delimiter)
    }

    /** The own delimiter is one the escape code can mask (see Codec.RegexSafe). */
    predicate Escapable() {
      Codec.RegexSafe(delimiter)
    }

    /** The current component list: the split of the string, or the stored list. */
    method ReadComponents() returns (cs: seq<string>)
      ensures cs == Components()
    {
      if storage.StringBacked? {
        cs := Codec.SplitComponents(storage.name, delimiter);
      } else {
        cs := storage.components;
      }
    }

    /** getNoComponents: StringName re-splits its string; the cached count plays no part. */
    method GetNoComponents() returns (n: int)
      ensures n == |Components()|
    {
      var cs := ReadComponents();
      n := |cs|;
    }

    /** getComponent: an index outside [0, count) is a RangeError. */
    method GetComponent(i: int) returns (r: Result<string>)
      ensures r == if 0 <= i < |Components()| then Ok(Components()[i]) else Err(RangeError)
    {
      var cs := ReadComponents();
      if i < 0 || i >= |cs| {
        return Err(RangeError);
      }
      r := Ok(cs[i]);
    }

    /** setComponent: the component at `i` is replaced. */
    method SetComponent(i: int, c: string) returns (o: Outcome)
      requires storage.StringBacked? ==> Escapable()
      modifies this
      ensures var cs := old(Components());
        if 0 <= i < |cs| then
          o == Pass && storage == Written(old(storage), delimiter, cs[i := c]) && Components() == cs[i := c]
        else
          o == Fail(RangeError) && storage == old(storage)
    {
      var cs := ReadComponents();
      if i < 0 || i >= |cs| {
        return Fail(RangeError);
      }
      cs := cs[i := c];
      WrittenComponents(storage, delimiter, cs);
      storage := Written(storage, delimiter, cs);
      o := Pass;
    }

    /** insert: StringName accepts every index in [0, count], StringArrayName only
        those in [0, count), so it cannot insert at the end, nor into an empty name. */
    method Insert(i: int, c: string) returns (o: Outcome)
      requires storage.StringBacked? ==> Escapable()
      modifies this
      ensures var cs := old(Components());
        if 0 <= i < |cs| || (old(storage).StringBacked? && i == |cs|) then
          o == Pass && storage == Written(old(storage), delimiter, cs[..i] + [c] + cs[i..])
          && Components() == cs[..i] + [c] + cs[i..]
        else
          o == Fail(RangeError) && storage == old(storage)
    {
      var cs := ReadComponents();
      if storage.StringBacked? && (i < 0 || i > |cs|) {
        return Fail(RangeError);
      }
      if storage.ArrayBacked? && (i < 0 || i >= |cs|) {
        return Fail(RangeError);
      }
      cs := cs[..i] + [c] + cs[i..];
      WrittenComponents(storage, delimiter, cs);
      storage := Written(storage, delimiter, cs);
      o := Pass;
    }

    /** append: `c` becomes the last component. */
    method Append(c: string)
      requires storage.StringBacked? ==> Escapable()
      modifies this
      ensures storage == Written(old(storage), delimiter, old(Components()) + [c])
      ensures Components() == old(Components()) + [c]
    {
      var cs := ReadComponents();
      cs := cs + [c];
      WrittenComponents(storage, delimiter, cs);
      storage := Written(storage, delimiter, cs);
    }

    /** remove: the component at `i` is taken out; a StringName cannot hold the empty
        list, so removing its only component leaves one empty component. */
    method Remove(i: int) returns (o: Outcome)
      requires storage.StringBacked? ==> Escapable()
      modifies this
      ensures var cs := old(Components());
        if 0 <= i < |cs| then
          o == Pass && storage == Written(old(storage), delimiter, cs[..i] + cs[i + 1..])
          && Components() == if old(storage).StringBacked? && |cs| == 1 then [""] else cs[..i] + cs[i + 1..]
        else
          o == Fail(RangeError) && storage == old(storage)
    {
      var cs := ReadComponents();
      if i < 0 || i >= |cs| {
        return Fail(RangeError);
      }
      cs := cs[..i] + cs[i + 1..];
      WrittenComponents(storage, delimiter, cs);
      storage := Written(storage, delimiter, cs);
      o := Pass;
    }

    /** concat: null is a RangeError; otherwise the components of `other` are appended
        one by one, its count re-read before every step. */
    method Concat(other: Name?) returns (o: Outcome)
      requires other != this
      requires storage.StringBacked? ==> Escapable()
      modifies this
      ensures other == null ==> o == Fail(RangeError) && storage == old(storage)
      ensures other != null ==>
        o == Pass && Components() == old(Components()) + other.Components()
        && storage == if other.Components() == [] then old(storage)
                      else Written(old(storage), delimiter, old(Components()) + other.Components())
    {
      if other == null {
        return Fail(RangeError);
      }
      var i := 0;
      var bound := other.GetNoComponents();
      while i < bound
        invariant bound == |other.Components()| && 0 <= i <= bound
        invariant Components() == old(Components()) + other.Components()[..i]
        invariant storage.StringBacked? == old(storage).StringBacked?
        invariant storage == if i == 0 then old(storage) else Written(old(storage), delimiter, Components())
        decreases bound - i
      {
        var c := other.GetComponent(i);
        Append(c.value);
        assert other.Components()[..i + 1] == other.Components()[..i] + [other.Components()[i]];
        i := i + 1;
        bound := other.GetNoComponents();
      }
      assert other.Components()[..i] == other.Components();
      o := Pass;
    }

    /** asString(d): each component has `\` + own delimiter replaced by `d` and `\\` by
        `\`, and the results are joined by `d`; `d` is not checked. */
    method AsString(d: string) returns (s: string)
      requires Escapable() && Codec.LiteralReplacement(d)
      ensures s == Codec.Join(Codec.MapUnescape(Components(), delimiter, d), d)
    {
      var parts: seq<string> := [];
      var i := 0;
      var count := GetNoComponents();
      while i < count
        invariant count == |Components()| && 0 <= i <= count
        invariant |parts| == i
        invariant forall k :: 0 <= k < i ==> parts[k] == Codec.UnescapeComponent(Components()[k], delimiter, d)
        decreases count - i
      {
        var c := GetComponent(i);
        parts := parts + [Codec.UnescapeComponent(c.value, delimiter, d)];
        i := i + 1;
        count := GetNoComponents();
      }
      assert parts == Codec.MapUnescape(Components(), delimiter, d);
      s := Codec.Join(parts, d);
    }

    /** asDataString: the components escaped against the own delimiter and joined by it. */
    method AsDataString() returns (s: string)
      requires Escapable()
      ensures s == Codec.EscapeJoin(Components(), delimiter)
    {
      var parts: seq<string> := [];
      var i := 0;
      var count := GetNoComponents();
      while i < count
        invariant count == |Components()| && 0 <= i <= count
        invariant |parts| == i
        invariant forall k :: 0 <= k < i ==> parts[k] == Codec.EscapeComponent(Components()[k], delimiter)
        decreases count - i
      {
        var c := GetComponent(i);
        parts := parts + [Codec.EscapeComponent(c.value, delimiter)];
        i := i + 1;
        count := GetNoComponents();
      }
      assert parts == Codec.MapEscape(Components(), delimiter);
      s := Codec.Join(parts, delimiter);
    }

    /** isEqual: the same object is equal to itself, null is never equal; otherwise the
        counts and then the components are compared. */
    method IsEqual(other: Name?) returns (b: bool)
      ensures other == this ==> b
      ensures other == null ==> !b
      ensures other != null && other != this ==> (b <==> Components() == other.Components())
    {
      if other == this {
        return true;
      }
      if other == null {
        return false;
      }
      var mine := GetNoComponents();
      var theirs := other.GetNoComponents();
      if mine != theirs {
        return false;
      }
      var i := 0;
      while i < mine
        invariant mine == |Components()| && 0 <= i <= mine
        invariant Components()[..i] == other.Components()[..i]
        decreases mine - i
      {
        var a := GetComponent(i);
        var b := other.GetComponent(i);
        if a != b {
          return false;
        }
        assert Components()[..i + 1] == Components()[..i] + [Components()[i]];
        assert other.Components()[..i + 1] == other.Components()[..i] + [other.Components()[i]];
        i := i + 1;
        mine := GetNoComponents();
      }
      assert Components()[..i] == Components();
      assert other.Components()[..i] == other.Components();
      return true;
    }

    /** getHashCode: the 32-bit string hash of asDataString. */
    method GetHashCode() returns (h: int)
      requires Escapable()
      ensures h == Hashing.HashOf(Codec.EscapeJoin(Components(), delimiter))
    {
      var s := AsDataString();
      h := Hashing.StringHash(s);
    }

    /** isEmpty: no components. */
    method IsEmpty() returns (b: bool)
      ensures b <==> |Components()| == 0
    {
      var count := GetNoComponents();
      b := count == 0;
    }

    /** clone: a new object with copies of the fields. */
    method Clone() returns (cloned: Name)
      ensures fresh(cloned) && cloned.delimiter == delimiter && cloned.storage == storage
    {
      cloned := new Name(delimiter, storage);
    }
  }

  /** new StringName(source, delimiter?): the count is cached from the split. */
  method NewStringName(source: string, delimiter: Option<string>) returns (n: Name)
    ensures fresh(n) && n.delimiter == DelimiterOrDefault(delimiter)
    ensures n.storage == StringBacked(source, |Codec.Split(source, n.delimiter)|)
  {
    var d := DelimiterOrDefault(delimiter);
    var cs := Codec.SplitComponents(source, d);
    n := new Name(d, StringBacked(source, |cs|));
  }

  /** new StringArrayName(source, delimiter?): stores a copy of the list. */
  method NewStringArrayName(source: seq<string>, delimiter: Option<string>) returns (n: Name)
    ensures fresh(n) && n.delimiter == DelimiterOrDefault(delimiter) && n.storage == ArrayBacked(source)
  {
    n := new Name(DelimiterOrDefault(delimiter), ArrayBacked(source));
  }

  // ---------------------------------------------------------------------------
  // Properties and scenarios of the tests
  // ---------------------------------------------------------------------------

  /** The same edits on a StringName and a StringArrayName of the same components
      (setComponent, insert, append, remove, as in the parity test) keep them in step:
      the same outcomes, the same components and the same data string. */
  method MutationsStayInSync(s: Name, a: Name) returns (same: bool)
    requires s != a && s.storage.StringBacked? && a.storage.ArrayBacked?
    requires s.delimiter == a.delimiter && s.Escapable()
    requires s.Components() == a.Components() && |s.Components()| >= 3
    modifies s, a
    ensures same && s.Components() == a.Components()
    ensures Codec.EscapeJoin(s.Components(), s.delimiter) == Codec.EscapeJoin(a.Components(), a.delimiter)
  {
    var o1 := s.SetComponent(1, "systems");
    var o2 := a.SetComponent(1, "systems");
    var o3 := s.Insert(2, "group");
    var o4 := a.Insert(2, "group");
    s.Append("de");
    a.Append("de");
    var o5 := s.Remove(0);
    var o6 := a.Remove(0);
    same := o1 == o2 && o3 == o4 && o5 == o6;
  }

  /** ... but insert at the end works on a StringName and is a RangeError on a
      StringArrayName of the same components. */
  method InsertAtEndDiffers(s: Name, a: Name) returns (onString: Outcome, onArray: Outcome)
    requires s != a && s.storage.StringBacked? && a.storage.ArrayBacked? && s.Escapable()
    requires s.Components() == a.Components()
    modifies s, a
    ensures onString == Pass && onArray == Fail(RangeError)
  {
    var n := s.GetNoComponents();
    onString := s.Insert(n, "x");
    onArray := a.Insert(n, "x");
  }

  /** Concatenation, then the data string, of equal names built either way. */
  method ConcatParity(s: Name, a: Name, t: Name, b: Name) returns (left: string, right: string)
    requires s.storage.StringBacked? && a.storage.ArrayBacked? && s.Escapable() && s.delimiter == a.delimiter
    requires s.Components() == a.Components() && t.Components() == b.Components()
    requires s != t && a != b && s != a && t != a && b != s
    modifies s, a
    ensures left == right && s.Components() == a.Components()
  {
    var o1 := s.Concat(t);
    var o2 := a.Concat(b);
    left := s.AsDataString();
    right := a.AsDataString();
  }

  /** `oss\\#cs#fau#de` under '#' has three components, and its data string
      reproduces the source ... */
  method MaskedDelimiterScenario() returns (n: Name, count: int, data: string)
    ensures fresh(n) && n.storage.StringBacked? && n.delimiter == "#"
    ensures n.Components() == ["oss#cs", "fau", "de"]
    ensures count == 3 && data == "oss\\#cs#fau#de"
  {
    Codec.MaskedSplit();
    n := NewStringName("oss\\#cs#fau#de", Some("#"));
    count := n.GetNoComponents();
    data := n.AsDataString();
  }

  /** ... and asString(".") of those components is `oss#cs.fau.de`: the masked '#'
      is not masked again. */
  method MaskedDelimiterRendering(n: Name) returns (rendered: string)
    requires n.delimiter == "#" && n.Components() == ["oss#cs", "fau", "de"]
    ensures rendered == "oss#cs.fau.de"
  {
    Codec.JoinUnescapePlain(n.Components(), "#", ".", ".");
    DottedJoin();
    rendered := n.AsString(".");
  }

  lemma DottedJoin()
    ensures Codec.Join(["oss#cs", "fau", "de"], ".") == "oss#cs.fau.de"
  {
  }

  /** Appending a plain component extends the data string by the delimiter and the
      component, as appending `people` does in the test. */
  method AppendExtendsDataString(n: Name, c: string) returns (before: string, after: string)
    requires n.Escapable() && |n.Components()| > 0 && Codec.EscapeCharacter !in c && n.delimiter[0] !in c
    modifies n
    ensures after == before + n.delimiter + c
  {
    before := n.AsDataString();
    var cs := n.Components();
    n.Append(c);
    Codec.EscapePlain(c, n.delimiter);
    Codec.EscapeJoinAppend(cs, c, n.delimiter);
    after := n.AsDataString();
  }

  /** Equal names with the same delimiter have equal hash codes. */
  method HashAlignsWithEquality(x: Name, y: Name) returns (equal: bool, hx: int, hy: int)
    requires x != y && x.delimiter == y.delimiter && x.Escapable() && x.Components() == y.Components()
    ensures equal && hx == hy
  {
    equal := x.IsEqual(y);
    hx := x.GetHashCode();
    hy := y.GetHashCode();
  }

  /** A clone is equal to its original and keeps its components when the original is
      appended to afterwards. */
  method CloneIsIndependent(n: Name, c: string) returns (equalBefore: bool, cloneAfter: seq<string>)
    requires n.storage.StringBacked? ==> n.Escapable()
    modifies n
    ensures equalBefore && cloneAfter == old(n.Components())
    ensures n.Components() == old(n.Components()) + [c]
  {
    var cloned := n.Clone();
    equalBefore := cloned.IsEqual(n);
    n.Append(c);
    cloneAfter := cloned.Components();
  }
}
