/** The escape grammar shared by every iteration of the name type: the escape and
    unescape codec, the join of a component list, and the splitter that reparses a
    delimited string into its components. */
module Codec {
  import opened Common

  /** The process-wide escape character `\`. */
  const EscapeCharacter: char := '\\'

  /** The process-wide default delimiter `.`. */
  const DefaultDelimiter: string := "."

  /** The delimiter argument of the b04 to b06 constructors: the default when it is
      left out; an explicit null or a string that is not one character is refused. */
  function DelimiterArgument(delimiter: Argument<string>): (r: Result<char>)
    ensures r.Ok? <==> delimiter.Omitted? || (delimiter.Given? && |delimiter.value| == 1)
    ensures r.Ok? ==> [r.value] == if delimiter.Omitted? then DefaultDelimiter else delimiter.value
    ensures r.Err? ==> r.error == IllegalArgumentException
  {
    match delimiter
    case Omitted => Ok(DefaultDelimiter[0])
    case Null => Err(IllegalArgumentException)
    case Given(d) => if |d| == 1 then Ok(d[0]) else Err(IllegalArgumentException)
  }

  predicate IsAsciiAlphanumeric(c: char) {
    ('a' <= c <= 'z') || ('A' <= c <= 'Z') || ('0' <= c <= '9')
  }

  /** A delimiter that the source's `new RegExp("\\" + delimiter)` reads as the literal
      character: one character, neither the escape character nor a letter or digit
      (for those the pattern becomes a character class, a control escape or a
      back-reference). */
  predicate RegexSafe(d: string) {
    |d| == 1 && d[0] != EscapeCharacter && !IsAsciiAlphanumeric(d[0])
  }

  /** A replacement string in which `String.prototype.replace` sees no `$` pattern. */
  predicate LiteralReplacement(r: string) {
    forall i :: 0 <= i < |r| - 1 && r[i] == '$' ==> r[i + 1] !in "$&`'<0123456789"
  }

  // ---------------------------------------------------------------------------
  // Global replacement of a literal pattern (String.prototype.replace with a
  // global regular expression that matches the pattern literally)
  // ---------------------------------------------------------------------------

  /** Scans left to right, replacing every non-overlapping occurrence of `pattern`. */
  function ReplaceAll(s: string, pattern: string, replacement: string): string
    requires |pattern| > 0
    decreases |s|
  {
    if |s| < |pattern| then s
    else if s[..|pattern|] == pattern then replacement + ReplaceAll(s[|pattern|..], pattern, replacement)
    else [s[0]] + ReplaceAll(s[1..], pattern, replacement)
  }

  /** A first character that cannot start the pattern is copied unchanged. */
  lemma ReplaceAllHeadSkip(c: char, t: string, pattern: string, replacement: string)
    requires |pattern| > 0 && c != pattern[0]
    ensures ReplaceAll([c] + t, pattern, replacement) == [c] + ReplaceAll(t, pattern, replacement)
  {
    var u := [c] + t;
    assert u[1..] == t;
    if |u| < |pattern| {
      assert ReplaceAll(t, pattern, replacement) == t;
    } else {
      assert u[..|pattern|][0] == c;
    }
  }

  /** A prefix that does not contain the first character of the pattern is copied unchanged. */
  lemma {:induction false} ReplaceAllSkipsPrefix(a: string, b: string, pattern: string, replacement: string)
    requires |pattern| > 0 && pattern[0] !in a
    ensures ReplaceAll(a + b, pattern, replacement) == a + ReplaceAll(b, pattern, replacement)
    decreases |a|
  {
    if a == [] {
      assert a + b == b;
    } else {
      ConsConcat(a, b);
      ReplaceAllHeadSkip(a[0], a[1..] + b, pattern, replacement);
      ReplaceAllSkipsPrefix(a[1..], b, pattern, replacement);
      ConsConcat(a, ReplaceAll(b, pattern, replacement));
    }
  }

  lemma ConsConcat(a: string, b: string)
    requires a != []
    ensures a + b == [a[0]] + (a[1..] + b)
  {
  }

  /** Replacing a one-character pattern distributes over concatenation. */
  lemma {:induction false} ReplaceAllCharConcat(a: string, b: string, x: char, replacement: string)
    ensures ReplaceAll(a + b, [x], replacement) == ReplaceAll(a, [x], replacement) + ReplaceAll(b, [x], replacement)
    decreases |a|
  {
    if a == [] {
      assert a + b == b;
    } else {
      assert (a + b)[..1] == a[..1] == [a[0]];
      assert (a + b)[1..] == a[1..] + b;
      ReplaceAllCharConcat(a[1..], b, x, replacement);
    }
  }

  /** A string without the pattern's characters is left unchanged. */
  lemma {:induction false} ReplaceAllAbsent(s: string, pattern: string, replacement: string)
    requires |pattern| > 0 && pattern[0] !in s
    ensures ReplaceAll(s, pattern, replacement) == s
  {
    ReplaceAllSkipsPrefix(s, "", pattern, replacement);
    assert s + "" == s;
  }

  // ---------------------------------------------------------------------------
  // Escape and unescape, as written: two global replacements each
  // ---------------------------------------------------------------------------

  /** escapeComponent: every `\` becomes `\\`, then every delimiter becomes `\` + delimiter. */
  function EscapeComponent(component: string, delimiter: string): string
    requires RegexSafe(delimiter)
  {
    ReplaceAll(ReplaceAll(component, [EscapeCharacter], [EscapeCharacter, EscapeCharacter]),
               delimiter, [EscapeCharacter] + delimiter)
  }

  /** unescapeComponent: `\` + own delimiter becomes `replacement` (the requested
      delimiter), then `\\` becomes `\`. */
  function UnescapeComponent(component: string, ownDelimiter: string, replacement: string): string
    requires RegexSafe(ownDelimiter) && LiteralReplacement(replacement)
  {
    ReplaceAll(ReplaceAll(component, [EscapeCharacter] + ownDelimiter, replacement),
               [EscapeCharacter, EscapeCharacter], [EscapeCharacter])
  }

  // ---------------------------------------------------------------------------
  // Character-level reference definitions
  // ---------------------------------------------------------------------------

  function EscapeChar(c: char, d: char): string {
    if c == EscapeCharacter then [EscapeCharacter, EscapeCharacter]
    else if c == d then [EscapeCharacter, d]
    else [c]
  }

  /** The per-character escape map: `\` to `\\`, `d` to `\d`, anything else to itself. */
  function EscapeChars(s: string, d: char): string
    decreases |s|
  {
    if s == [] then [] else EscapeChar(s[0], d) + EscapeChars(s[1..], d)
  }

  /** `s` with every occurrence of `d` replaced by `r`. */
  function Substituted(s: string, d: char, r: string): string
    decreases |s|
  {
    if s == [] then [] else (if s[0] == d then r else [s[0]]) + Substituted(s[1..], d, r)
  }

  /** The intermediate result of unescaping an escaped string: escapes still doubled,
      every delimiter already replaced by `r`. */
  function DelimitersReplaced(s: string, d: char, r: string): string
    decreases |s|
  {
    if s == [] then []
    else (if s[0] == EscapeCharacter then [EscapeCharacter, EscapeCharacter]
          else if s[0] == d then r else [s[0]]) + DelimitersReplaced(s[1..], d, r)
  }

  /** The two global replacements of escapeComponent compute the per-character map. */
  lemma {:induction false} EscapeComponentIsCharMap(s: string, d: string)
    requires RegexSafe(d)
    ensures EscapeComponent(s, d) == EscapeChars(s, d[0])
    decreases |s|
  {
    var e := EscapeCharacter;
    if s != [] {
      var head := if s[0] == e then [e, e] else [s[0]];
      assert s[..1] == [s[0]];
      assert ReplaceAll(s, [e], [e, e]) == head + ReplaceAll(s[1..], [e], [e, e]);
      ReplaceAllCharConcat(head, ReplaceAll(s[1..], [e], [e, e]), d[0], [e] + d);
      assert d == [d[0]];
      if s[0] == e {
        assert ReplaceAll([e, e], d, [e] + d) == [e, e] by {
          ReplaceAllAbsent([e, e], d, [e] + d);
        }
      } else if s[0] == d[0] {
        assert ReplaceAll([s[0]], d, [e] + d) == [e, d[0]];
      } else {
        assert ReplaceAll([s[0]], d, [e] + d) == [s[0]];
      }
      EscapeComponentIsCharMap(s[1..], d);
    }
  }

  /** Escaping a component adds one character per escape character and per delimiter. */
  lemma {:induction false} EscapeCharsLength(s: string, d: char)
    requires d != EscapeCharacter
    ensures |EscapeChars(s, d)| == |s| + multiset(s)[EscapeCharacter] + multiset(s)[d]
    decreases |s|
  {
    if s != [] {
      assert s == [s[0]] + s[1..];
      assert multiset(s) == multiset([s[0]]) + multiset(s[1..]);
      EscapeCharsLength(s[1..], d);
    }
  }

  /** An escaped string never starts with a bare delimiter. */
  lemma EscapeCharsHead(s: string, d: char)
    requires d != EscapeCharacter && s != []
    ensures EscapeChars(s, d) != [] && EscapeChars(s, d)[0] != d
  {
  }

  /** A two-character pattern that does not start at the first position is skipped. */
  lemma ReplaceAllPairSkip(c: char, t: string, pattern: string, replacement: string)
    requires |pattern| == 2 && (c != pattern[0] || t == [] || t[0] != pattern[1])
    ensures ReplaceAll([c] + t, pattern, replacement) == [c] + ReplaceAll(t, pattern, replacement)
  {
    var u := [c] + t;
    assert u[1..] == t;
    if |u| >= 2 {
      assert u[..2] == [c, t[0]];
    }
  }

  /** A two-character pattern at the first position is replaced. */
  lemma ReplaceAllPairHit(t: string, pattern: string, replacement: string)
    requires |pattern| == 2
    ensures ReplaceAll(pattern + t, pattern, replacement) == replacement + ReplaceAll(t, pattern, replacement)
  {
    assert (pattern + t)[..2] == pattern;
    assert (pattern + t)[2..] == t;
  }

  /** First pass of unescape on an escaped string. */
  lemma {:induction false} UnescapeFirstPass(s: string, d: char, r: string)
    requires d != EscapeCharacter
    ensures ReplaceAll(EscapeChars(s, d), [EscapeCharacter, d], r) == DelimitersReplaced(s, d, r)
    decreases |s|
  {
    var e := EscapeCharacter;
    if s != [] {
      var rest := EscapeChars(s[1..], d);
      UnescapeFirstPass(s[1..], d, r);
      if s[0] == e {
        if rest != [] {
          EscapeCharsHead(s[1..], d);
        }
        ReplaceAllPairSkip(e, rest, [e, d], r);
        ReplaceAllPairSkip(e, [e] + rest, [e, d], r);
        assert [e, e] + rest == [e] + ([e] + rest);
      } else if s[0] == d {
        ReplaceAllPairHit(rest, [e, d], r);
      } else {
        ReplaceAllPairSkip(s[0], rest, [e, d], r);
      }
    }
  }

  /** Second pass of unescape on the intermediate string. */
  lemma {:induction false} UnescapeSecondPass(s: string, d: char, r: string)
    requires d != EscapeCharacter && EscapeCharacter !in r
    ensures ReplaceAll(DelimitersReplaced(s, d, r), [EscapeCharacter, EscapeCharacter], [EscapeCharacter]) == Substituted(s, d, r)
    decreases |s|
  {
    var e := EscapeCharacter;
    if s != [] {
      var rest := DelimitersReplaced(s[1..], d, r);
      UnescapeSecondPass(s[1..], d, r);
      if s[0] == e {
        var t := [e, e] + rest;
        assert t[..2] == [e, e];
        assert t[2..] == rest;
      } else {
        var head := if s[0] == d then r else [s[0]];
        ReplaceAllSkipsPrefix(head, rest, [e, e], [e]);
      }
    }
  }

  /** Unescaping an escaped component with replacement `r` yields the component with
      every delimiter replaced by `r`. */
  lemma UnescapeEscaped(s: string, d: string, r: string)
    requires RegexSafe(d) && LiteralReplacement(r) && EscapeCharacter !in r
    ensures UnescapeComponent(EscapeComponent(s, d), d, r) == Substituted(s, d[0], r)
  {
    EscapeComponentIsCharMap(s, d);
    assert [EscapeCharacter] + d == [EscapeCharacter, d[0]];
    UnescapeFirstPass(s, d[0], r);
    UnescapeSecondPass(s, d[0], r);
  }

  lemma {:induction false} SubstitutedIdentity(s: string, d: char)
    ensures Substituted(s, d, [d]) == s
    decreases |s|
  {
    if s != [] {
      SubstitutedIdentity(s[1..], d);
      assert s == [s[0]] + s[1..];
    }
  }

  /** Unescape is the left inverse of escape for the same delimiter. */
  lemma UnescapeEscapeInverse(s: string, d: string)
    requires RegexSafe(d)
    ensures UnescapeComponent(EscapeComponent(s, d), d, d) == s
  {
    assert d == [d[0]];
    UnescapeEscaped(s, d, d);
    SubstitutedIdentity(s, d[0]);
  }

  /** A component without escape characters or delimiters escapes to itself. */
  lemma EscapePlain(s: string, d: string)
    requires RegexSafe(d) && EscapeCharacter !in s && d[0] !in s
    ensures EscapeComponent(s, d) == s
  {
    ReplaceAllAbsent(s, [EscapeCharacter], [EscapeCharacter, EscapeCharacter]);
    ReplaceAllAbsent(s, d, [EscapeCharacter] + d);
  }

  /** ... and unescapes to itself. */
  lemma UnescapePlain(s: string, d: string, r: string)
    requires RegexSafe(d) && LiteralReplacement(r) && EscapeCharacter !in s
    ensures UnescapeComponent(s, d, r) == s
  {
    ReplaceAllAbsent(s, [EscapeCharacter] + d, r);
    ReplaceAllAbsent(s, [EscapeCharacter, EscapeCharacter], [EscapeCharacter]);
  }

  // ---------------------------------------------------------------------------
  // Lists of components
  // ---------------------------------------------------------------------------

  /** Array.prototype.join. */
  function Join(cs: seq<string>, separator: string): string
    decreases |cs|
  {
    if |cs| == 0 then "" else if |cs| == 1 then cs[0] else cs[0] + separator + Join(cs[1..], separator)
  }

  function MapEscape(cs: seq<string>, d: string): (r: seq<string>)
    requires RegexSafe(d)
    ensures |r| == |cs| && forall i :: 0 <= i < |cs| ==> r[i] == EscapeComponent(cs[i], d)
    decreases |cs|
  {
    if cs == [] then [] else [EscapeComponent(cs[0], d)] + MapEscape(cs[1..], d)
  }

  function MapUnescape(cs: seq<string>, ownDelimiter: string, replacement: string): (r: seq<string>)
    requires RegexSafe(ownDelimiter) && LiteralReplacement(replacement)
    ensures |r| == |cs| && forall i :: 0 <= i < |cs| ==> r[i] == UnescapeComponent(cs[i], ownDelimiter, replacement)
    decreases |cs|
  {
    if cs == [] then [] else [UnescapeComponent(cs[0], ownDelimiter, replacement)] + MapUnescape(cs[1..], ownDelimiter, replacement)
  }

  /** The escape-join that every iteration uses to build the delimited string:
      components escaped against `d` and joined by `d`. */
  function EscapeJoin(cs: seq<string>, d: string): string
    requires RegexSafe(d)
  {
    Join(MapEscape(cs, d), d)
  }

  /** No component contains the escape character or the delimiter `d`. */
  predicate PlainComponents(cs: seq<string>, d: char) {
    forall i :: 0 <= i < |cs| ==> EscapeCharacter !in cs[i] && d !in cs[i]
  }

  /** Plain components are written out as they are: their escape-join is their join. */
  lemma EscapeJoinPlain(cs: seq<string>, d: string)
    requires RegexSafe(d) && PlainComponents(cs, d[0])
    ensures EscapeJoin(cs, d) == Join(cs, d)
  {
    forall i | 0 <= i < |cs| {
      EscapePlain(cs[i], d);
    }
    assert MapEscape(cs, d) == cs;
  }

  /** Appending a component to a non-empty list appends the separator and it to the join. */
  lemma {:induction false} JoinAppend(cs: seq<string>, c: string, separator: string)
    requires |cs| > 0
    ensures Join(cs + [c], separator) == Join(cs, separator) + separator + c
    decreases |cs|
  {
    if |cs| > 1 {
      assert (cs + [c])[1..] == cs[1..] + [c];
      JoinAppend(cs[1..], c, separator);
    } else {
      assert (cs + [c])[1..] == [c];
    }
  }

  /** ... and so it does to the escape-join, with the component escaped. */
  lemma EscapeJoinAppend(cs: seq<string>, c: string, d: string)
    requires RegexSafe(d) && |cs| > 0
    ensures EscapeJoin(cs + [c], d) == EscapeJoin(cs, d) + d + EscapeComponent(c, d)
  {
    assert MapEscape(cs + [c], d) == MapEscape(cs, d) + [EscapeComponent(c, d)];
    JoinAppend(MapEscape(cs, d), EscapeComponent(c, d), d);
  }

  /** Joining two non-empty lists one after the other puts the separator between their joins. */
  lemma {:induction false} JoinConcat(a: seq<string>, b: seq<string>, separator: string)
    requires |a| > 0 && |b| > 0
    ensures Join(a + b, separator) == Join(a, separator) + separator + Join(b, separator)
    decreases |a|
  {
    assert (a + b)[0] == a[0];
    if |a| == 1 {
      assert (a + b)[1..] == b;
    } else {
      assert (a + b)[1..] == a[1..] + b;
      JoinConcat(a[1..], b, separator);
    }
  }

  /** ... and the same holds for the escape-join. */
  lemma EscapeJoinConcat(a: seq<string>, b: seq<string>, d: string)
    requires RegexSafe(d) && |a| > 0 && |b| > 0
    ensures EscapeJoin(a + b, d) == EscapeJoin(a, d) + d + EscapeJoin(b, d)
  {
    assert MapEscape(a + b, d) == MapEscape(a, d) + MapEscape(b, d);
    JoinConcat(MapEscape(a, d), MapEscape(b, d), d);
  }

  /** ... and components without escape characters unescape to themselves. */
  lemma MapUnescapePlain(cs: seq<string>, d: string, r: string)
    requires RegexSafe(d) && LiteralReplacement(r)
    ensures (forall i :: 0 <= i < |cs| ==> EscapeCharacter !in cs[i]) ==> MapUnescape(cs, d, r) == cs
  {
    if forall i :: 0 <= i < |cs| ==> EscapeCharacter !in cs[i] {
      forall i | 0 <= i < |cs| {
        UnescapePlain(cs[i], d, r);
      }
    }
  }

  /** Rendering components without escape characters is joining them. */
  lemma JoinUnescapePlain(cs: seq<string>, d: string, r: string, separator: string)
    requires RegexSafe(d) && LiteralReplacement(r)
    requires forall i :: 0 <= i < |cs| ==> EscapeCharacter !in cs[i]
    ensures Join(MapUnescape(cs, d, r), separator) == Join(cs, separator)
  {
    MapUnescapePlain(cs, d, r);
  }

  // ---------------------------------------------------------------------------
  // The splitter: a left-to-right scan with an `escaped` flag
  // ---------------------------------------------------------------------------

  /** The scan's variables: the closed components, the one being read, the flag. */
  datatype ScanState = ScanState(result: seq<string>, current: string, escaped: bool)

  const ScanStart := ScanState([], "", false)

  /** One step of the scan: an escaped character is taken literally; an unescaped `\`
      is dropped and sets the flag; an unescaped delimiter closes the component. */
  function ScanStep(st: ScanState, ch: char, delimiter: string): ScanState {
    if st.escaped then ScanState(st.result, st.current + [ch], false)
    else if ch == EscapeCharacter then ScanState(st.result, st.current, true)
    else if [ch] == delimiter then ScanState(st.result + [st.current], "", false)
    else ScanState(st.result, st.current + [ch], false)
  }

  /** The scan of `s` from state `st`, as a fold over the prefixes of `s`. */
  function ScanFrom(st: ScanState, s: string, delimiter: string): ScanState
    decreases |s|
  {
    if s == [] then st else ScanStep(ScanFrom(st, s[..|s| - 1], delimiter), s[|s| - 1], delimiter)
  }

  /** splitComponents: the scan of the whole string, with the final component pushed. */
  function Split(s: string, delimiter: string): (r: seq<string>)
    ensures |r| >= 1
  {
    var st := ScanFrom(ScanStart, s, delimiter);
    st.result + [st.current]
  }

  /** The loop of splitComponents (identical in b02, b03, b04 and b06). */
  method SplitComponents(name: string, delimiter: string) returns (result: seq<string>)
    ensures result == Split(name, delimiter)
  {
    result := [];
    var current := "";
    var escaped := false;
    for i := 0 to |name|
      invariant ScanState(result, current, escaped) == ScanFrom(ScanStart, name[..i], delimiter)
    {
      var ch := name[i];
      assert name[..i + 1][..i] == name[..i];
      if escaped {
        current := current + [ch];
        escaped := false;
      } else if ch == EscapeCharacter {
        escaped := true;
      } else if [ch] == delimiter {
        result := result + [current];
        current := "";
      } else {
        current := current + [ch];
      }
    }
    assert name[..|name|] == name;
    result := result + [current];
  }

  lemma {:induction false} ScanConcat(st: ScanState, a: string, b: string, delimiter: string)
    ensures ScanFrom(st, a + b, delimiter) == ScanFrom(ScanFrom(st, a, delimiter), b, delimiter)
    decreases |b|
  {
    if b == [] {
      assert a + b == a;
    } else {
      var b' := b[..|b| - 1];
      assert (a + b)[..|a + b| - 1] == a + b';
      assert (a + b)[|a + b| - 1] == b[|b| - 1];
      ScanConcat(st, a, b', delimiter);
    }
  }

  lemma ScanOne(st: ScanState, x: char, delimiter: string)
    ensures ScanFrom(st, [x], delimiter) == ScanStep(st, x, delimiter)
  {
    assert [x][..0] == [];
  }

  lemma ScanTwo(st: ScanState, x: char, y: char, delimiter: string)
    ensures ScanFrom(st, [x, y], delimiter) == ScanStep(ScanStep(st, x, delimiter), y, delimiter)
  {
    assert [x, y][..1] == [x];
    ScanOne(st, x, delimiter);
  }

  /** Reading one escaped character appends the character to the current text. */
  lemma ScanEscapedChar(res: seq<string>, cur: string, c: char, d: string)
    requires |d| == 1 && d[0] != EscapeCharacter
    ensures ScanFrom(ScanState(res, cur, false), EscapeChar(c, d[0]), d) == ScanState(res, cur + [c], false)
  {
    var st := ScanState(res, cur, false);
    if c == EscapeCharacter || c == d[0] {
      ScanTwo(st, EscapeCharacter, c, d);
    } else {
      ScanOne(st, c, d);
      assert [c] != d;
    }
  }

  /** Reading an escaped component appends exactly the component to the current text. */
  lemma {:induction false} ScanEscapedComponent(res: seq<string>, cur: string, c: string, d: string)
    requires |d| == 1 && d[0] != EscapeCharacter
    ensures ScanFrom(ScanState(res, cur, false), EscapeChars(c, d[0]), d) == ScanState(res, cur + c, false)
    decreases |c|
  {
    if c == [] {
      assert cur + c == cur;
    } else {
      ScanConcat(ScanState(res, cur, false), EscapeChar(c[0], d[0]), EscapeChars(c[1..], d[0]), d);
      ScanEscapedChar(res, cur, c[0], d);
      ScanEscapedComponent(res, cur + [c[0]], c[1..], d);
      assert cur + [c[0]] + c[1..] == cur + c;
    }
  }

  /** The escape-join of two or more components, unfolded once. */
  lemma EscapeJoinUnfold(cs: seq<string>, d: string)
    requires RegexSafe(d) && |cs| > 1
    ensures EscapeJoin(cs, d) == EscapeComponent(cs[0], d) + d + EscapeJoin(cs[1..], d)
  {
    assert MapEscape(cs, d)[1..] == MapEscape(cs[1..], d);
  }

  /** Reading one escaped component and a delimiter closes that component. */
  lemma ScanComponentThenDelimiter(res: seq<string>, c: string, rest: string, d: string)
    requires RegexSafe(d)
    ensures ScanFrom(ScanState(res, "", false), EscapeComponent(c, d) + d + rest, d)
         == ScanFrom(ScanState(res + [c], "", false), rest, d)
  {
    var st := ScanState(res, "", false);
    var e0 := EscapeComponent(c, d);
    EscapeComponentIsCharMap(c, d);
    ScanEscapedComponent(res, "", c, d);
    assert "" + c == c;
    ScanConcat(st, e0 + d, rest, d);
    ScanConcat(st, e0, d, d);
    assert d == [d[0]];
    ScanOne(ScanState(res, c, false), d[0], d);
  }

  /** Reading the escape of a single component from a component boundary. */
  lemma ScanEscapeJoinSingle(res: seq<string>, cs: seq<string>, d: string)
    requires RegexSafe(d) && |cs| == 1
    ensures ScanFrom(ScanState(res, "", false), EscapeJoin(cs, d), d) == ScanState(res + cs[..0], cs[0], false)
  {
    assert EscapeJoin(cs, d) == EscapeComponent(cs[0], d);
    EscapeComponentIsCharMap(cs[0], d);
    ScanEscapedComponent(res, "", cs[0], d);
    assert "" + cs[0] == cs[0];
    assert res + cs[..0] == res;
  }

  /** Closing the head component before the others closes the same list. */
  lemma ClosedComponents(res: seq<string>, cs: seq<string>)
    requires |cs| > 1
    ensures res + [cs[0]] + cs[1..][..|cs| - 2] == res + cs[..|cs| - 1]
  {
    assert cs[..|cs| - 1] == [cs[0]] + cs[1..][..|cs| - 2];
  }

  /** The inductive step: the first component and its delimiter are closed, then the
      rest is read from the next boundary. */
  lemma ScanEscapeJoinStep(res: seq<string>, cs: seq<string>, d: string)
    requires RegexSafe(d) && |cs| > 1
    requires ScanFrom(ScanState(res + [cs[0]], "", false), EscapeJoin(cs[1..], d), d)
             == ScanState(res + [cs[0]] + cs[1..][..|cs| - 2], cs[|cs| - 1], false)
    ensures ScanFrom(ScanState(res, "", false), EscapeJoin(cs, d), d) == ScanState(res + cs[..|cs| - 1], cs[|cs| - 1], false)
  {
    EscapeJoinUnfold(cs, d);
    ScanComponentThenDelimiter(res, cs[0], EscapeJoin(cs[1..], d), d);
    ClosedComponents(res, cs);
  }

  /** Reading an escape-join from a component boundary closes all but the last component. */
  lemma {:induction false} ScanEscapeJoin(res: seq<string>, cs: seq<string>, d: string)
    requires RegexSafe(d) && |cs| > 0
    ensures ScanFrom(ScanState(res, "", false), EscapeJoin(cs, d), d) == ScanState(res + cs[..|cs| - 1], cs[|cs| - 1], false)
    decreases |cs|
  {
    if |cs| == 1 {
      ScanEscapeJoinSingle(res, cs, d);
    } else {
      ScanEscapeJoin(res + [cs[0]], cs[1..], d);
      ScanEscapeJoinStep(res, cs, d);
    }
  }

  /** The central round trip: splitting the escape-join of a non-empty component list
      gives the list back. */
  lemma SplitEscapeJoin(cs: seq<string>, d: string)
    requires RegexSafe(d) && |cs| > 0
    ensures Split(EscapeJoin(cs, d), d) == cs
  {
    ScanEscapeJoin([], cs, d);
    assert [] + cs[..|cs| - 1] == cs[..|cs| - 1];
    assert cs[..|cs| - 1] + [cs[|cs| - 1]] == cs;
  }

  /** ... and the empty list does not survive it: the escape-join of no components is
      the empty string, which splits into one empty component. */
  lemma SplitEscapeJoinAny(cs: seq<string>, d: string)
    requires RegexSafe(d)
    ensures cs == [] ==> EscapeJoin(cs, d) == ""
    ensures Split(EscapeJoin(cs, d), d) == if cs == [] then [""] else cs
  {
    if cs != [] {
      SplitEscapeJoin(cs, d);
    }
  }

  /** A delimited string with no escape characters splits at every delimiter. */
  lemma SplitPlainJoin(cs: seq<string>, d: string)
    requires RegexSafe(d) && PlainComponents(cs, d[0]) && |cs| > 0
    ensures Split(Join(cs, d), d) == cs
  {
    EscapeJoinPlain(cs, d);
    SplitEscapeJoin(cs, d);
  }

  /** The number of `\` characters that immediately precede the end of `s`. */
  function TrailingEscapes(s: string): nat
    decreases |s|
  {
    if s != [] && s[|s| - 1] == EscapeCharacter then 1 + TrailingEscapes(s[..|s| - 1]) else 0
  }

  /** The delimiters of `s` that are preceded by an even run of escape characters. */
  function UnescapedDelimiters(s: string, d: char): nat
    decreases |s|
  {
    if s == [] then 0
    else UnescapedDelimiters(s[..|s| - 1], d)
         + (if s[|s| - 1] == d && TrailingEscapes(s[..|s| - 1]) % 2 == 0 then 1 else 0)
  }

  /** Both counts, one character further. */
  lemma CountsAppend(a: string, c: char, d: char)
    ensures TrailingEscapes(a + [c]) == if c == EscapeCharacter then 1 + TrailingEscapes(a) else 0
    ensures UnescapedDelimiters(a + [c], d)
         == UnescapedDelimiters(a, d) + (if c == d && TrailingEscapes(a) % 2 == 0 then 1 else 0)
  {
    assert (a + [c])[..|a|] == a;
  }

  lemma {:induction false} ScanCounts(s: string, d: string)
    requires |d| == 1 && d[0] != EscapeCharacter
    ensures ScanFrom(ScanStart, s, d).escaped <==> TrailingEscapes(s) % 2 == 1
    ensures |ScanFrom(ScanStart, s, d).result| == UnescapedDelimiters(s, d[0])
    decreases |s|
  {
    if s != [] {
      ScanCounts(s[..|s| - 1], d);
      assert d == [d[0]];
    }
  }

  /** A string splits into one more component than it has unescaped delimiters. */
  lemma SplitCount(s: string, d: string)
    requires |d| == 1 && d[0] != EscapeCharacter
    ensures |Split(s, d)| == 1 + UnescapedDelimiters(s, d[0])
  {
    ScanCounts(s, d);
  }

  // ---------------------------------------------------------------------------
  // The escape-joins of the masked-delimiter test names
  // ---------------------------------------------------------------------------

  /** The escape of a component holding the delimiter. */
  lemma MaskedComponent()
    ensures EscapeComponent("oss#cs", "#") == "oss\\#cs"
  {
    EscapeComponentIsCharMap("oss#cs", "#");
    assert EscapeChars("oss#cs", '#') == "oss\\#cs";
  }

  /** The escape-joins behind the masked-delimiter examples. */
  lemma MaskedEscapeJoinThree()
    ensures EscapeJoin(["oss#cs", "fau", "de"], "#") == "oss\\#cs#fau#de"
  {
    MaskedEscapeJoinTwo();
    EscapePlain("de", "#");
    EscapeJoinUnfold(["oss#cs", "fau", "de"], "#");
    EscapeJoinUnfold(["oss#cs", "fau"], "#");
    assert ["oss#cs", "fau", "de"][1..] == ["fau", "de"];
    assert ["oss#cs", "fau", "de"][1..][1..] == ["de"];
  }

  lemma MaskedEscapeJoinTwo()
    ensures EscapeJoin(["oss#cs", "fau"], "#") == "oss\\#cs#fau"
  {
    MaskedComponent();
    SingleEscapeJoin("fau", "#");
    EscapeJoinUnfold(["oss#cs", "fau"], "#");
    assert ["oss#cs", "fau"][1..] == ["fau"];
  }

  /** The escape-join of one plain component is the component. */
  lemma SingleEscapeJoin(c: string, d: string)
    requires RegexSafe(d) && EscapeCharacter !in c && d[0] !in c
    ensures EscapeJoin([c], d) == c
  {
    EscapePlain(c, d);
  }

  /** `oss\\#cs#fau#de` under '#' is the escape-join of `oss#cs`, `fau` and `de`, and
      splits back into them. */
  lemma MaskedSplit()
    ensures EscapeJoin(["oss#cs", "fau", "de"], "#") == "oss\\#cs#fau#de"
    ensures Split("oss\\#cs#fau#de", "#") == ["oss#cs", "fau", "de"]
  {
    MaskedEscapeJoinThree();
    SplitEscapeJoin(["oss#cs", "fau", "de"], "#");
  }
}
