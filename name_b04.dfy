/** Iterations b04 and b05: mutable names with contracts. The concrete classes of b04
    (StringName and StringArrayName) check their preconditions with
    IllegalArgumentException, their invariants with InvalidStateException and their
    postconditions with MethodFailedException; the shared base class is the b05
    AbstractName. One class stands for both concrete classes: its `storage` holds the
    fields of the one it is. */
module NameB04 {
  import opened Common
  import Codec
  import Hashing

  /** The fields of the two concrete classes. */
  datatype Storage =
    | /** StringName: the escaped string and the cached component count. */
      StringBacked(name: string, noComponents: int)
    | /** StringArrayName: the list of logical components. */
      ArrayBacked(components: seq<string>)

  /** The logical components: StringName splits its string, StringArrayName holds its list. */
  function ComponentsOf(s: Storage, d: char): seq<string> {
    match s
    case StringBacked(name, _) => Codec.Split(name, [d])
    case ArrayBacked(cs) => cs
  }

  /** The concrete invariant. StringName's cached count must be the length of the split;
      the other conditions (a one-character delimiter, no null name, no null component)
      hold for every value of these types. */
  predicate Invariant(s: Storage, d: char) {
    s.StringBacked? ==> s.noComponents == |Codec.Split(s.name, [d])|
  }

  /** The fields after a mutation has written the list `cs`: StringName rebuilds its
      string as the escape-join of `cs` and caches `|cs|`; StringArrayName holds `cs`. */
  function Written(s: Storage, d: char, cs: seq<string>): Storage
    requires s.StringBacked? ==> Codec.RegexSafe([d])
  {
    if s.StringBacked? then StringBacked(Codec.EscapeJoin(cs, [d]), |cs|) else ArrayBacked(cs)
  }

  /** Writing a list gives it back as the components, and keeps the invariant, except
      for StringName and the empty list: its rebuilt string "" splits into one empty
      component while the cached count is 0. */
  lemma WrittenComponents(s: Storage, d: char, cs: seq<string>)
    requires s.StringBacked? ==> Codec.RegexSafe([d])
    ensures Written(s, d, cs).StringBacked? == s.StringBacked?
    ensures Invariant(Written(s, d, cs), d) <==> s.ArrayBacked? || cs != []
    ensures ComponentsOf(Written(s, d, cs), d) == if s.StringBacked? && cs == [] then [""] else cs
  {
    if s.StringBacked? {
      Codec.SplitEscapeJoinAny(cs, [d]);
    }
  }

  class Name {
    /** The delimiter, validated by the constructor and never reassigned. */
    const delimiter: char
    var storage: Storage

    constructor (delimiter: char, storage: Storage)
      ensures this.delimiter == delimiter && this.storage == storage
    {
      this.delimiter := delimiter;
      this.storage := storage;
    }

    function Components(): seq<string>
      reads this
    {
      ComponentsOf(storage, delimiter)
    }

    predicate Consistent()
      reads this
    {
      Invariant(storage, delimiter)
    }

    /** The own delimiter is one the escape code can mask (see Codec.RegexSafe). */
    predicate Escapable() {
      Codec.RegexSafe([delimiter])
    }

    /** The current component list: the split of the string, or the stored list. */
    method ReadComponents() returns (cs: seq<string>)
      ensures cs == Components()
    {
      if storage.StringBacked? {
        cs := Codec.SplitComponents(storage.name, [delimiter]);
      } else {
        cs := storage.components;
      }
    }

    /** assertInvariant, as overridden by the concrete class. */
    method AssertInvariant() returns (o: Outcome)
      ensures o == if Consistent() then Pass else Fail(InvalidStateException)
    {
      if storage.StringBacked? {
        var cs := Codec.SplitComponents(storage.name, [delimiter]);
        if storage.noComponents != |cs| {
          return Fail(InvalidStateException);
        }
      }
      o := Pass;
    }

    /** getNoComponents: checks the invariant, then counts the components. */
    method GetNoComponents() returns (r: Result<int>)
      ensures r == if Consistent() then Ok(|Components()|) else Err(InvalidStateException)
    {
      var inv := AssertInvariant();
      if inv.Fail? {
        return Err(inv.error);
      }
      var cs := ReadComponents();
      r := Ok(|cs|);
    }

    /** getComponent: no invariant check; the index must lie in [0, count). */
    method GetComponent(i: int) returns (r: Result<string>)
      ensures r == if 0 <= i < |Components()| then Ok(Components()[i]) else Err(IllegalArgumentException)
    {
      var cs := ReadComponents();
      if !(0 <= i < |cs|) {
        return Err(IllegalArgumentException);
      }
      r := Ok(cs[i]);
    }

    /** setComponent: the component at `i` is replaced; then the invariant and the
        postconditions (same count, `getComponent(i) == c`) are checked. */
    method SetComponent(i: int, c: string) returns (o: Outcome)
      requires storage.StringBacked? ==> Escapable()
      modifies this
      ensures var cs := old(Components());
        if 0 <= i < |cs| then
          o == Pass && storage == Written(old(storage), delimiter, cs[i := c])
          && Consistent() && Components() == cs[i := c]
        else
          o == Fail(IllegalArgumentException) && storage == old(storage)
    {
      var cs := ReadComponents();
      if !(0 <= i < |cs|) {
        return Fail(IllegalArgumentException);
      }
      var originalLength := |cs|;
      cs := cs[i := c];
      WrittenComponents(storage, delimiter, cs);
      storage := Written(storage, delimiter, cs);
      var inv := AssertInvariant();
      if inv.Fail? {
        return inv;
      }
      var count := GetNoComponents();
      if count != Ok(originalLength) {
        return Fail(MethodFailedException);
      }
      var written := GetComponent(i);
      if written != Ok(c) {
        return Fail(MethodFailedException);
      }
      o := Pass;
    }

    /** insert: the index may also be the count; the later components shift right;
        then the count has grown by one and `getComponent(i) == c`. */
    method Insert(i: int, c: string) returns (o: Outcome)
      requires storage.StringBacked? ==> Escapable()
      modifies this
      ensures var cs := old(Components());
        if 0 <= i <= |cs| then
          o == Pass && storage == Written(old(storage), delimiter, cs[..i] + [c] + cs[i..])
          && Consistent() && Components() == cs[..i] + [c] + cs[i..]
        else
          o == Fail(IllegalArgumentException) && storage == old(storage)
    {
      var cs := ReadComponents();
      if !(0 <= i <= |cs|) {
        return Fail(IllegalArgumentException);
      }
      var originalLength := |cs|;
      cs := cs[..i] + [c] + cs[i..];
      WrittenComponents(storage, delimiter, cs);
      storage := Written(storage, delimiter, cs);
      var inv := AssertInvariant();
      if inv.Fail? {
        return inv;
      }
      var count := GetNoComponents();
      if count != Ok(originalLength + 1) {
        return Fail(MethodFailedException);
      }
      var written := GetComponent(i);
      if written != Ok(c) {
        return Fail(MethodFailedException);
      }
      o := Pass;
    }

    /** append: `c` becomes the last component; then the count has grown by one and the
        last component is `c`. */
    method Append(c: string) returns (o: Outcome)
      requires storage.StringBacked? ==> Escapable()
      modifies this
      ensures o == Pass && storage == Written(old(storage), delimiter, old(Components()) + [c])
      ensures Consistent() && Components() == old(Components()) + [c]
    {
      var cs := ReadComponents();
      var originalLength := |cs|;
      cs := cs + [c];
      WrittenComponents(storage, delimiter, cs);
      storage := Written(storage, delimiter, cs);
      var inv := AssertInvariant();
      if inv.Fail? {
        return inv;
      }
      var count := GetNoComponents();
      if count != Ok(originalLength + 1) {
        return Fail(MethodFailedException);
      }
      var last := GetComponent(count.value - 1);
      if last != Ok(c) {
        return Fail(MethodFailedException);
      }
      o := Pass;
    }

    /** remove: the component at `i` is taken out and the count drops by one. A
        StringName cannot hold the empty list: removing its only component stores ""
        with the count 0, the invariant check then fails, and the name stays so. */
    method Remove(i: int) returns (o: Outcome)
      requires storage.StringBacked? ==> Escapable()
      modifies this
      ensures var cs := old(Components());
        if !(0 <= i < |cs|) then
          o == Fail(IllegalArgumentException) && storage == old(storage)
        else if old(storage).StringBacked? && |cs| == 1 then
          o == Fail(InvalidStateException) && storage == StringBacked("", 0) && !Consistent()
        else
          o == Pass && storage == Written(old(storage), delimiter, cs[..i] + cs[i + 1..])
          && Consistent() && Components() == cs[..i] + cs[i + 1..]
    {
      var cs := ReadComponents();
      if !(0 <= i < |cs|) {
        return Fail(IllegalArgumentException);
      }
      var originalLength := |cs|;
      cs := cs[..i] + cs[i + 1..];
      WrittenComponents(storage, delimiter, cs);
      storage := Written(storage, delimiter, cs);
      var inv := AssertInvariant();
      if inv.Fail? {
        return inv;
      }
      var count := GetNoComponents();
      if count != Ok(originalLength - 1) {
        return Fail(MethodFailedException);
      }
      o := Pass;
    }

    /** concat: appends the components of `other` one by one, re-reading its count
        before every step, and checks the final count. */
    method Concat(other: Name?) returns (o: Outcome)
      requires other != this
      requires storage.StringBacked? ==> Escapable()
      modifies this
      ensures other == null ==> o == Fail(IllegalArgumentException) && storage == old(storage)
      ensures other != null && !(old(Consistent()) && other.Consistent()) ==>
        o == Fail(InvalidStateException) && storage == old(storage)
      ensures other != null && old(Consistent()) && other.Consistent() ==>
        o == Pass && Consistent() && Components() == old(Components()) + other.Components()
        && storage == if other.Components() == [] then old(storage)
                      else Written(old(storage), delimiter, old(Components()) + other.Components())
    {
      if other == null {
        return Fail(IllegalArgumentException);
      }
      var inv := AssertInvariant();
      if inv.Fail? {
        return inv;
      }
      var start := GetNoComponents();
      var i := 0;
      var bound := other.GetNoComponents();
      if bound.Err? {
        return Fail(bound.error);
      }
      while i < bound.value
        invariant other.Consistent() && bound == Ok(|other.Components()|)
        invariant 0 <= i <= |other.Components()|
        invariant Consistent() && Components() == old(Components()) + other.Components()[..i]
        invariant storage.StringBacked? == old(storage).StringBacked?
        invariant storage == if i == 0 then old(storage) else Written(old(storage), delimiter, Components())
        decreases |other.Components()| - i
      {
        var c := other.GetComponent(i);
        var appended := Append(c.value);
        if appended.Fail? {
          return appended;
        }
        assert other.Components()[..i + 1] == other.Components()[..i] + [other.Components()[i]];
        i := i + 1;
        bound := other.GetNoComponents();
      }
      assert other.Components()[..i] == other.Components();
      inv := AssertInvariant();
      if inv.Fail? {
        return inv;
      }
      var now := GetNoComponents();
      var added := other.GetNoComponents();
      if now.value != start.value + added.value {
        return Fail(MethodFailedException);
      }
      o := Pass;
    }

    /** asString(d): checks the invariant and that `d` is one character; each component
        has `\` + own delimiter replaced by `d` and `\\` by `\`, and the results are
        joined by `d`. */
    method AsString(d: string) returns (r: Result<string>)
      requires Escapable()
      ensures r == if !Consistent() then Err(InvalidStateException)
                   else if |d| != 1 then Err(IllegalArgumentException)
                   else Ok(Codec.Join(Codec.MapUnescape(Components(), [delimiter], d), d))
    {
      var inv := AssertInvariant();
      if inv.Fail? {
        return Err(inv.error);
      }
      if |d| != 1 {
        return Err(IllegalArgumentException);
      }
      var parts: seq<string> := [];
      var i := 0;
      var count := GetNoComponents();
      while i < count.value
        invariant count == Ok(|Components()|) && 0 <= i <= |Components()|
        invariant |parts| == i
        invariant forall k :: 0 <= k < i ==> parts[k] == Codec.UnescapeComponent(Components()[k], [delimiter], d)
        decreases |Components()| - i
      {
        var c := GetComponent(i);
        parts := parts + [Codec.UnescapeComponent(c.value, [delimiter], d)];
        i := i + 1;
        count := GetNoComponents();
      }
      assert parts == Codec.MapUnescape(Components(), [delimiter], d);
      r := Ok(Codec.Join(parts, d));
    }

    /** asDataString: checks the invariant; the components escaped against the own
        delimiter and joined by it. */
    method AsDataString() returns (r: Result<string>)
      requires Escapable()
      ensures r == if Consistent() then Ok(Codec.EscapeJoin(Components(), [delimiter])) else Err(InvalidStateException)
    {
      var inv := AssertInvariant();
      if inv.Fail? {
        return Err(inv.error);
      }
      var parts: seq<string> := [];
      var i := 0;
      var count := GetNoComponents();
      while i < count.value
        invariant count == Ok(|Components()|) && 0 <= i <= |Components()|
        invariant |parts| == i
        invariant forall k :: 0 <= k < i ==> parts[k] == Codec.EscapeComponent(Components()[k], [delimiter])
        decreases |Components()| - i
      {
        var c := GetComponent(i);
        parts := parts + [Codec.EscapeComponent(c.value, [delimiter])];
        i := i + 1;
        count := GetNoComponents();
      }
      assert parts == Codec.MapEscape(Components(), [delimiter]);
      r := Ok(Codec.Join(parts, [delimiter]));
    }

    /** isEqual: the same object is equal to itself, null is never equal; otherwise the
        counts (each read with an invariant check) and the components are compared. */
    method IsEqual(other: Name?) returns (r: Result<bool>)
      ensures other == this ==> r == Ok(true)
      ensures other == null ==> r == Ok(false)
      ensures other != null && other != this ==>
        r == if !(Consistent() && other.Consistent()) then Err(InvalidStateException)
             else Ok(Components() == other.Components())
    {
      if other == this {
        return Ok(true);
      }
      if other == null {
        return Ok(false);
      }
      var mine := GetNoComponents();
      if mine.Err? {
        return Err(mine.error);
      }
      var theirs := other.GetNoComponents();
      if theirs.Err? {
        return Err(theirs.error);
      }
      if mine.value != theirs.value {
        return Ok(false);
      }
      var i := 0;
      while i < mine.value
        invariant mine == Ok(|Components()|) && 0 <= i <= |Components()|
        invariant Components()[..i] == other.Components()[..i]
        decreases |Components()| - i
      {
        var a := GetComponent(i);
        var b := other.GetComponent(i);
        if a != b {
          return Ok(false);
        }
        assert Components()[..i + 1] == Components()[..i] + [Components()[i]];
        assert other.Components()[..i + 1] == other.Components()[..i] + [other.Components()[i]];
        i := i + 1;
        mine := GetNoComponents();
      }
      assert Components()[..i] == Components();
      assert other.Components()[..i] == other.Components();
      r := Ok(true);
    }

    /** getHashCode: the 32-bit string hash of asDataString, which escapes against the
        own delimiter. */
    method GetHashCode() returns (r: Result<int>)
      requires Escapable()
      ensures r == if Consistent() then Ok(Hashing.HashOf(Codec.EscapeJoin(Components(), [delimiter])))
                   else Err(InvalidStateException)
    {
      var inv := AssertInvariant();
      if inv.Fail? {
        return Err(inv.error);
      }
      var s := AsDataString();
      var h := Hashing.StringHash(s.value);
      r := Ok(h);
    }

    /** isEmpty: checks the invariant; no components. */
    method IsEmpty() returns (r: Result<bool>)
      ensures r == if Consistent() then Ok(|Components()| == 0) else Err(InvalidStateException)
    {
      var inv := AssertInvariant();
      if inv.Fail? {
        return Err(inv.error);
      }
      var count := GetNoComponents();
      r := Ok(count.value == 0);
    }

    /** getDelimiterCharacter: checks the invariant. */
    method GetDelimiterCharacter() returns (r: Result<char>)
      ensures r == if Consistent() then Ok(delimiter) else Err(InvalidStateException)
    {
      var inv := AssertInvariant();
      if inv.Fail? {
        return Err(inv.error);
      }
      r := Ok(delimiter);
    }

    /** clone: checks the invariant and copies the fields into a new object (the list of
        a StringArrayName is duplicated, which a sequence value is already). */
    method Clone() returns (r: Result<Name>)
      ensures !Consistent() ==> r == Err(InvalidStateException)
      ensures Consistent() ==>
        r.Ok? && fresh(r.value) && r.value.delimiter == delimiter && r.value.storage == storage
    {
      var inv := AssertInvariant();
      if inv.Fail? {
        return Err(inv.error);
      }
      var cloned := new Name(delimiter, storage);
      inv := cloned.AssertInvariant();
      if inv.Fail? {
        return Err(InvalidStateException);
      }
      r := Ok(cloned);
    }
  }

  /** new StringName(source, delimiter?): a null source or a delimiter that is not one
      character is an IllegalArgumentException; the count is cached from the split. */
  method NewStringName(source: Option<string>, delimiter: Argument<string>) returns (r: Result<Name>)
    ensures r.Err? <==> source.None? || Codec.DelimiterArgument(delimiter).Err?
    ensures r.Err? ==> r.error == IllegalArgumentException
    ensures r.Ok? ==>
      fresh(r.value) && r.value.delimiter == Codec.DelimiterArgument(delimiter).value
      && r.value.storage == StringBacked(source.value, |Codec.Split(source.value, [r.value.delimiter])|)
      && r.value.Consistent()
  {
    if source.None? {
      return Err(IllegalArgumentException);
    }
    var d := Codec.DelimiterArgument(delimiter);
    if d.Err? {
      return Err(d.error);
    }
    var cs := Codec.SplitComponents(source.value, [d.value]);
    var n := new Name(d.value, StringBacked(source.value, |cs|));
    var inv := n.AssertInvariant();
    if inv.Fail? {
      return Err(InvalidStateException);
    }
    r := Ok(n);
  }

  /** new StringArrayName(source, delimiter?): a null source or a bad delimiter is an
      IllegalArgumentException; the list is copied, and a null entry in it fails the
      invariant check with InvalidStateException. */
  method NewStringArrayName(source: Option<seq<Option<string>>>, delimiter: Argument<string>) returns (r: Result<Name>)
    ensures source.None? || Codec.DelimiterArgument(delimiter).Err? ==> r == Err(IllegalArgumentException)
    ensures source.Some? && Codec.DelimiterArgument(delimiter).Ok? ==>
      if exists k :: 0 <= k < |source.value| && source.value[k].None? then r == Err(InvalidStateException)
      else r.Ok? && fresh(r.value) && r.value.delimiter == Codec.DelimiterArgument(delimiter).value
           && r.value.storage == ArrayBacked(Values(source.value)) && r.value.Consistent()
  {
    if source.None? {
      return Err(IllegalArgumentException);
    }
    var d := Codec.DelimiterArgument(delimiter);
    if d.Err? {
      return Err(d.error);
    }
    var copy := source.value;
    for k := 0 to |copy|
      invariant forall j :: 0 <= j < k ==> copy[j].Some?
    {
      if copy[k].None? {
        return Err(InvalidStateException);
      }
    }
    var n := new Name(d.value, ArrayBacked(Values(copy)));
    r := Ok(n);
  }

  // ---------------------------------------------------------------------------
  // Scenarios of the contract tests and of the invariant's edge
  // ---------------------------------------------------------------------------

  /** Removing the only component of a StringName fails its invariant check and leaves
      the name broken: getNoComponents fails too. setComponent, which does not check
      the invariant first, still works on the one empty component and repairs it. */
  method RemoveOnlyComponent() returns (removed: Outcome, count: Result<int>, repaired: Outcome, after: seq<string>)
    ensures removed == Fail(InvalidStateException) && count == Err(InvalidStateException)
    ensures repaired == Pass && after == ["fau"]
  {
    Codec.SplitPlainJoin(["oss"], ".");
    var r := NewStringName(Some("oss"), Omitted);
    var n := r.value;
    removed := n.Remove(0);
    count := n.GetNoComponents();
    assert Codec.Split("", ".") == [""];
    repaired := n.SetComponent(0, "fau");
    after := n.Components();
  }

  /** A StringArrayName may lose all of its components and is then empty. */
  method ArrayRemoveToEmpty() returns (removed: Outcome, empty: Result<bool>)
    ensures removed == Pass && empty == Ok(true)
  {
    var r := NewStringArrayName(Some([Some("oss")]), Omitted);
    var n := r.value;
    removed := n.Remove(0);
    empty := n.IsEmpty();
  }

  /** The rejected arguments of the contract tests. */
  method ContractViolations() returns (nullSource: Result<Name>, longDelimiter: Result<Name>, nullComponent: Result<Name>,
                                       badIndex: Result<string>, badInsert: Outcome, nullOther: Outcome, badRendering: Result<string>)
    ensures nullSource == Err(IllegalArgumentException) && longDelimiter == Err(IllegalArgumentException)
    ensures nullComponent == Err(InvalidStateException)
    ensures badIndex == Err(IllegalArgumentException) && badInsert == Fail(IllegalArgumentException)
    ensures nullOther == Fail(IllegalArgumentException) && badRendering == Err(IllegalArgumentException)
  {
    nullSource := NewStringArrayName(None, Omitted);
    longDelimiter := NewStringName(Some("abc"), Given("##"));
    nullComponent := NewStringArrayName(Some([Some("oss"), None]), Omitted);
    var r := NewStringArrayName(Some([Some("oss"), Some("cs")]), Omitted);
    var n := r.value;
    badIndex := n.GetComponent(-1);
    badInsert := n.Insert(5, "fau");
    nullOther := n.Concat(null);
    badRendering := n.AsString("");
  }

  /** A clone has its own fields: appending to the original leaves the clone as it was. */
  method CloneIsIndependent() returns (original: seq<string>, copy: seq<string>)
    ensures original == ["oss", "cs", "fau"] && copy == ["oss", "cs"]
  {
    var r := NewStringArrayName(Some([Some("oss"), Some("cs")]), Omitted);
    var n := r.value;
    var c := n.Clone();
    var appended := n.Append("fau");
    original := n.Components();
    copy := c.value.Components();
  }

  /** concat appends the components of a name of the other representation. */
  method ConcatAcrossRepresentations() returns (o: Outcome, joined: seq<string>)
    ensures o == Pass && joined == ["oss", "cs", "fau", "de"]
  {
    Codec.SplitPlainJoin(["oss", "cs"], ".");
    assert Codec.Join(["oss", "cs"], ".") == "oss.cs";
    var r := NewStringName(Some("oss.cs"), Omitted);
    var s := r.value;
    var q := NewStringArrayName(Some([Some("fau"), Some("de")]), Omitted);
    o := s.Concat(q.value);
    joined := s.Components();
  }

  /** isEqual ignores the delimiter but getHashCode hashes asDataString, which is built
      with the own delimiter: `a.b` under '.' and `a#b` under '#' are equal names with
      different hash codes. */
  method EqualNamesDifferentHashes() returns (equal: Result<bool>, dotHash: Result<int>, hashHash: Result<int>)
    ensures equal == Ok(true) && dotHash.Ok? && hashHash.Ok? && dotHash.value != hashHash.value
  {
    var r1 := NewStringArrayName(Some([Some("a"), Some("b")]), Omitted);
    var r2 := NewStringArrayName(Some([Some("a"), Some("b")]), Given("#"));
    var dot := r1.value;
    var hash := r2.value;
    assert Values([Some("a"), Some("b")]) == ["a", "b"];
    assert dot.Components() == ["a", "b"] && dot.delimiter == '.';
    assert hash.Components() == ["a", "b"] && hash.delimiter == '#';
    equal := dot.IsEqual(hash);
    dotHash := dot.GetHashCode();
    hashHash := hash.GetHashCode();
    TwoDataStrings();
    TwoHashes();
  }

  /** The data strings of the two names. */
  lemma TwoDataStrings()
    ensures Codec.EscapeJoin(["a", "b"], ".") == "a.b" && Codec.EscapeJoin(["a", "b"], "#") == "a#b"
  {
    Codec.EscapeJoinPlain(["a", "b"], ".");
    Codec.EscapeJoinPlain(["a", "b"], "#");
  }

  /** The two hash codes: 94741 for `a.b` and 94400 for `a#b`. */
  lemma TwoHashes()
    ensures Hashing.HashOf("a.b") == 94741 && Hashing.HashOf("a#b") == 94400
  {
    Hashing.ToInt32Small(97);
    Hashing.ToInt32Small(97 * 32);
    assert Hashing.HashOf("a") == 97 by {
      assert "a"[..0] == "";
    }
    Hashing.ToInt32Small(3104 - 97 + 46);
    Hashing.ToInt32Small(3104 - 97 + 35);
    assert Hashing.HashOf("a.") == 3053 by {
      assert "a."[..1] == "a";
    }
    assert Hashing.HashOf("a#") == 3042 by {
      assert "a#"[..1] == "a";
    }
    Hashing.ToInt32Small(3053 * 32);
    Hashing.ToInt32Small(3042 * 32);
    Hashing.ToInt32Small(3053 * 32 - 3053 + 98);
    Hashing.ToInt32Small(3042 * 32 - 3042 + 98);
    assert "a.b"[..2] == "a.";
    assert "a#b"[..2] == "a#";
  }
}
