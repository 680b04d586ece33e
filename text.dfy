/**
 * The JavaScript string operations the registration form relies on, written
 * out over `seq<char>`: `trim`, the `\s` class, `startsWith`, `indexOf`,
 * `replace` with a string pattern, `includes`, `split`/`join`, and the case
 * mappings the form applies to its own data and to e-mail domains.
 */
module Text {
  import opened Wrappers

  // ---------------------------------------------------------------------------
  // Whitespace: ECMAScript WhiteSpace and LineTerminator code points. This is
  // both the set `String.prototype.trim` strips and the set `\s` matches.
  // ---------------------------------------------------------------------------

  predicate IsWhitespace(c: char) {
    || c == '\t' || c == '\n' || c == '\U{000B}' || c == '\U{000C}' || c == '\r'
    || c == ' ' || c == '\U{00A0}' || c == '\U{1680}'
    || ('\U{2000}' <= c <= '\U{200A}')
    || c == '\U{2028}' || c == '\U{2029}' || c == '\U{202F}' || c == '\U{205F}'
    || c == '\U{3000}' || c == '\U{FEFF}'
  }

  predicate AllWhitespace(s: string) {
    forall i | 0 <= i < |s| :: IsWhitespace(s[i])
  }

  predicate NoWhitespace(s: string) {
    forall i | 0 <= i < |s| :: !IsWhitespace(s[i])
  }

  /** True when `s` neither starts nor ends with whitespace. */
  predicate Unpadded(s: string) {
    s == [] || (!IsWhitespace(s[0]) && !IsWhitespace(s[|s| - 1]))
  }

  /** `trimStart`: drops the longest all-whitespace prefix. */
  function TrimStart(s: string): (r: string)
    ensures |r| <= |s| && r == s[|s| - |r|..]
    ensures AllWhitespace(s[..|s| - |r|])
    ensures r == [] || !IsWhitespace(r[0])
  {
    if |s| > 0 && IsWhitespace(s[0]) then TrimStart(s[1..]) else s
  }

  /** `trimEnd`: drops the longest all-whitespace suffix. */
  function TrimEnd(s: string): (r: string)
    ensures |r| <= |s| && r == s[..|r|]
    ensures AllWhitespace(s[|r|..])
    ensures r == [] || !IsWhitespace(r[|r| - 1])
  {
    if |s| > 0 && IsWhitespace(s[|s| - 1]) then
      var r := TrimEnd(s[..|s| - 1]);
      assert forall i | |r| <= i < |s| - 1 :: s[i] == s[..|s| - 1][i];
      r
    else s
  }

  /** `String.prototype.trim`. */
  function Trim(s: string): (r: string)
    ensures Unpadded(r) && |r| <= |s|
  {
    TrimEnd(TrimStart(s))
  }

  /**
   * Trim's reference definition: whatever whitespace padding surrounds an
   * unpadded middle part, trimming yields exactly that middle part.
   */
  lemma TrimOfPadded(p: string, m: string, q: string)
    requires AllWhitespace(p) && AllWhitespace(q) && Unpadded(m)
    ensures Trim(p + m + q) == m
  {
    if m == [] {
      assert p + m + q == (p + q) + [];
      assert AllWhitespace(p + q) by {
        forall i | 0 <= i < |p + q| ensures IsWhitespace((p + q)[i]) {
          if i < |p| { assert (p + q)[i] == p[i]; } else { assert (p + q)[i] == q[i - |p|]; }
        }
      }
      TrimStartOfPadded(p + q, []);
    } else {
      assert p + m + q == p + (m + q);
      TrimStartOfPadded(p, m + q);
      TrimEndOfPadded(m, q);
    }
  }

  /** Trimming leaves a string that neither starts nor ends with whitespace as it is. */
  lemma TrimOfUnpadded(s: string)
    requires Unpadded(s)
    ensures Trim(s) == s
  {
    TrimOfPadded([], s, []);
    assert [] + s + [] == s;
  }

  lemma {:induction false} TrimStartOfPadded(p: string, m: string)
    requires AllWhitespace(p) && (m == [] || !IsWhitespace(m[0]))
    ensures TrimStart(p + m) == m
  {
    if p == [] {
      assert p + m == m;
    } else {
      assert (p + m)[0] == p[0];
      assert (p + m)[1..] == p[1..] + m;
      TrimStartOfPadded(p[1..], m);
    }
  }

  lemma {:induction false} TrimEndOfPadded(m: string, q: string)
    requires AllWhitespace(q) && (m == [] || !IsWhitespace(m[|m| - 1]))
    ensures TrimEnd(m + q) == m
  {
    if q == [] {
      assert m + q == m;
    } else {
      var s := m + q;
      assert s[|s| - 1] == q[|q| - 1];
      assert s[..|s| - 1] == m + q[..|q| - 1];
      TrimEndOfPadded(m, q[..|q| - 1]);
    }
  }

  /** `replace(/\s/g, '')`: every whitespace code point removed, the rest kept in order. */
  function RemoveWhitespace(s: string): string {
    if s == [] then []
    else (if IsWhitespace(s[0]) then [] else [s[0]]) + RemoveWhitespace(s[1..])
  }

  /** Removing whitespace leaves no whitespace, never lengthens, and changes nothing when there is none. */
  lemma {:induction false} RemoveWhitespaceSpec(s: string)
    ensures NoWhitespace(RemoveWhitespace(s)) && |RemoveWhitespace(s)| <= |s|
    ensures NoWhitespace(s) ==> RemoveWhitespace(s) == s
  {
    if s != [] {
      RemoveWhitespaceSpec(s[1..]);
      var h := if IsWhitespace(s[0]) then [] else [s[0]];
      var t := RemoveWhitespace(s[1..]);
      assert forall i | 0 <= i < |h + t| :: (h + t)[i] == if i < |h| then h[i] else t[i - |h|];
      if NoWhitespace(s) {
        assert NoWhitespace(s[1..]) by { assert forall i | 0 <= i < |s| - 1 :: s[1..][i] == s[i + 1]; }
        assert [s[0]] + s[1..] == s;
      }
    }
  }

  lemma {:induction false} RemoveWhitespaceAppend(a: string, b: string)
    ensures RemoveWhitespace(a + b) == RemoveWhitespace(a) + RemoveWhitespace(b)
  {
    if a != [] {
      assert (a + b)[1..] == a[1..] + b;
      RemoveWhitespaceAppend(a[1..], b);
    } else {
      assert a + b == b;
    }
  }

  // ---------------------------------------------------------------------------
  // Digits (`\d` is ASCII 0-9 only).
  // ---------------------------------------------------------------------------

  predicate IsDigit(c: char) { '0' <= c <= '9' }

  predicate AllDigits(s: string) {
    forall i | 0 <= i < |s| :: IsDigit(s[i])
  }

  // ---------------------------------------------------------------------------
  // Searching.
  // ---------------------------------------------------------------------------

  /** True when `p` occurs in `s` starting at index `k`. */
  predicate OccursAt(s: string, p: string, k: nat) {
    k + |p| <= |s| && s[k..k + |p|] == p
  }

  /** `s.startsWith(p)`. */
  predicate StartsWith(s: string, p: string) {
    OccursAt(s, p, 0)
  }

  /** First occurrence of `p` in `s` at or after index `from`. */
  function IndexOfFrom(s: string, p: string, from: nat): (r: Option<nat>)
    ensures r.Some? ==> from <= r.value && OccursAt(s, p, r.value)
    ensures r.Some? ==> forall k | from <= k < r.value :: !OccursAt(s, p, k)
    ensures r.None? ==> forall k | from <= k :: !OccursAt(s, p, k)
    decreases |s| - from
  {
    if from + |p| > |s| then None
    else if s[from..from + |p|] == p then Some(from)
    else IndexOfFrom(s, p, from + 1)
  }

  /** `s.indexOf(p)`, with -1 as `None`. */
  function IndexOf(s: string, p: string): (r: Option<nat>)
    ensures r.Some? ==> OccursAt(s, p, r.value) && forall k: nat | k < r.value :: !OccursAt(s, p, k)
    ensures r.None? <==> forall k: nat :: !OccursAt(s, p, k)
  {
    IndexOfFrom(s, p, 0)
  }

  /** `s.includes(p)`. */
  predicate Includes(s: string, p: string) {
    IndexOf(s, p).Some?
  }

  lemma IncludesIffOccurs(s: string, p: string)
    ensures Includes(s, p) <==> exists k :: OccursAt(s, p, k)
  {
    if Includes(s, p) {
      assert OccursAt(s, p, IndexOf(s, p).value);
    }
  }

  /** `s.replace(p, r)` with a string pattern: only the first occurrence is replaced. */
  function ReplaceFirst(s: string, p: string, r: string): (t: string)
    ensures IndexOf(s, p).None? ==> t == s
  {
    match IndexOf(s, p)
    case None => s
    case Some(i) => s[..i] + r + s[i + |p|..]
  }

  /** Removing the first occurrence of a prefix the string starts with removes that prefix. */
  lemma ReplacePrefix(s: string, p: string)
    requires StartsWith(s, p)
    ensures ReplaceFirst(s, p, "") == s[|p|..]
  {
    assert IndexOf(s, p) == Some(0);
  }

  // ---------------------------------------------------------------------------
  // split / join.
  // ---------------------------------------------------------------------------

  /** `s.split(sep)` for a one-character separator: never empty, no piece holds `sep`. */
  function Split(s: string, sep: char): (parts: seq<string>)
    ensures |parts| >= 1
    ensures forall i | 0 <= i < |parts| :: sep !in parts[i]
  {
    if s == [] then [[]]
    else
      var rest := Split(s[1..], sep);
      if s[0] == sep then [[]] + rest
      else [[s[0]] + rest[0]] + rest[1..]
  }

  /** `parts.join(sep)`; the empty list joins to the empty string. */
  function Join(parts: seq<string>, sep: string): string {
    if |parts| == 0 then []
    else if |parts| == 1 then parts[0]
    else parts[0] + sep + Join(parts[1..], sep)
  }

  /** Appending a part to a non-empty list adds the separator and that part at the end of the join. */
  lemma {:induction false} JoinSnoc(parts: seq<string>, p: string, sep: string)
    requires |parts| >= 1
    ensures Join(parts + [p], sep) == Join(parts, sep) + sep + p
  {
    assert (parts + [p])[1..] == parts[1..] + [p];
    if |parts| > 1 {
      JoinSnoc(parts[1..], p, sep);
    }
  }

  lemma JoinCons(x: char, w: string, rest: seq<string>, sep: string)
    ensures Join([[x] + w] + rest, sep) == [x] + Join([w] + rest, sep)
  {
    if |rest| > 0 {
      assert ([[x] + w] + rest)[1..] == rest;
      assert ([w] + rest)[1..] == rest;
    }
  }

  /** Joining the pieces of a split with the same separator restores the string. */
  lemma {:induction false} JoinSplit(s: string, sep: char)
    ensures Join(Split(s, sep), [sep]) == s
  {
    if s != [] {
      var rest := Split(s[1..], sep);
      JoinSplit(s[1..], sep);
      if s[0] == sep {
        assert ([[]] + rest)[1..] == rest;
      } else {
        JoinCons(s[0], rest[0], rest[1..], [sep]);
        assert [rest[0]] + rest[1..] == rest;
      }
    }
  }

  lemma {:induction false} SplitNoSep(a: string, sep: char)
    requires sep !in a
    ensures Split(a, sep) == [a]
  {
    if a != [] {
      assert sep !in a[1..] by { assert forall i | 0 <= i < |a[1..]| :: a[1..][i] == a[i + 1]; }
      SplitNoSep(a[1..], sep);
      assert [a[0]] + a[1..] == a;
    }
  }

  lemma {:induction false} SplitAfterPiece(a: string, t: string, sep: char)
    requires sep !in a
    ensures Split(a + [sep] + t, sep) == [a] + Split(t, sep)
  {
    if a == [] {
      assert a + [sep] + t == [sep] + t;
      assert ([sep] + t)[1..] == t;
    } else {
      var s := a + [sep] + t;
      assert s[0] == a[0] && s[1..] == a[1..] + [sep] + t;
      assert sep !in a[1..] by { assert forall i | 0 <= i < |a[1..]| :: a[1..][i] == a[i + 1]; }
      SplitAfterPiece(a[1..], t, sep);
      assert [a[0]] + a[1..] == a;
    }
  }

  /** Splitting a join of separator-free pieces gives the pieces back. */
  lemma {:induction false} SplitJoin(parts: seq<string>, sep: char)
    requires |parts| >= 1
    requires forall i | 0 <= i < |parts| :: sep !in parts[i]
    ensures Split(Join(parts, [sep]), sep) == parts
  {
    if |parts| == 1 {
      SplitNoSep(parts[0], sep);
    } else {
      SplitJoin(parts[1..], sep);
      SplitAfterPiece(parts[0], Join(parts[1..], [sep]), sep);
      assert [parts[0]] + parts[1..] == parts;
    }
  }

  // ---------------------------------------------------------------------------
  // Case mapping.
  // ---------------------------------------------------------------------------

  /**
   * `toLowerCase` of one code point. Exact for ASCII, for the Latin-1
   * upper-case letters, and for the only two non-ASCII code points whose
   * lower case contains an ASCII letter (U+0130 and the Kelvin sign U+212A);
   * every other code point is kept as it is.
   */
  function LowerChar(c: char): string {
    if 'A' <= c <= 'Z' || ('\U{00C0}' <= c <= '\U{00DE}' && c != '\U{00D7}') then [(c as int + 32) as char]
    else if c == '\U{0130}' then ['i', '\U{0307}']
    else if c == '\U{212A}' then ['k']
    else [c]
  }

  /**
   * `toUpperCase` of one code point: ASCII and the Latin-1 lower-case letters
   * with a one-letter upper case (U+00FF and the micro sign U+00B5 map outside
   * Latin-1); every other code point is kept as it is.
   */
  function UpperChar(c: char): char {
    if 'a' <= c <= 'z' || ('\U{00E0}' <= c <= '\U{00FE}' && c != '\U{00F7}') then (c as int - 32) as char
    else if c == '\U{00FF}' then '\U{0178}'
    else if c == '\U{00B5}' then '\U{039C}'
    else c
  }

  /** `String.prototype.toLowerCase`. */
  function Lower(s: string): string {
    if s == [] then [] else LowerChar(s[0]) + Lower(s[1..])
  }
  /** The model's lower-casing maps each code point on its own, so it distributes over concatenation. */
  lemma {:induction false} LowerAppend(a: string, b: string)
    ensures Lower(a + b) == Lower(a) + Lower(b)
  {
    if a == [] {
      assert a + b == b;
    } else {
      assert (a + b)[0] == a[0] && (a + b)[1..] == a[1..] + b;
      LowerAppend(a[1..], b);
    }
  }

  /** Lower-casing a capitalised word lowers only its first code point. */
  lemma LowerCapitalised(c: char, rest: string)
    requires IsLowerCase(rest)
    ensures Lower([c] + rest) == LowerChar(c) + rest
  {
    assert ([c] + rest)[1..] == rest;
    LowerOfLowerCase(rest);
  }


  /** True when lower-casing leaves every code point of `s` as it is. */
  predicate IsLowerCase(s: string) {
    forall i | 0 <= i < |s| :: LowerChar(s[i]) == [s[i]]
  }

  lemma {:induction false} LowerOfLowerCase(s: string)
    requires IsLowerCase(s)
    ensures Lower(s) == s
  {
    if s != [] {
      assert IsLowerCase(s[1..]) by { assert forall i | 0 <= i < |s| - 1 :: s[1..][i] == s[i + 1]; }
      LowerOfLowerCase(s[1..]);
      assert [s[0]] + s[1..] == s;
    }
  }

  lemma LowerCharIsLowerCase(c: char)
    ensures IsLowerCase(LowerChar(c))
  {}

  lemma IsLowerCaseAppend(a: string, b: string)
    requires IsLowerCase(a) && IsLowerCase(b)
    ensures IsLowerCase(a + b)
  {
    forall i | 0 <= i < |a + b| ensures LowerChar((a + b)[i]) == [(a + b)[i]] {
      if i < |a| { assert (a + b)[i] == a[i]; } else { assert (a + b)[i] == b[i - |a|]; }
    }
  }

  /** Lower-casing is idempotent: its result is already lower case. */
  lemma {:induction false} LowerIsLowerCase(s: string)
    ensures IsLowerCase(Lower(s))
  {
    if s != [] {
      LowerIsLowerCase(s[1..]);
      LowerCharIsLowerCase(s[0]);
      IsLowerCaseAppend(LowerChar(s[0]), Lower(s[1..]));
    }
  }

  lemma {:induction false} RemoveWhitespaceKeepsLowerCase(s: string)
    requires IsLowerCase(s)
    ensures IsLowerCase(RemoveWhitespace(s))
  {
    if s != [] {
      assert IsLowerCase(s[1..]) by { assert forall i | 0 <= i < |s| - 1 :: s[1..][i] == s[i + 1]; }
      RemoveWhitespaceKeepsLowerCase(s[1..]);
      IsLowerCaseAppend(if IsWhitespace(s[0]) then [] else [s[0]], RemoveWhitespace(s[1..]));
    }
  }

  // ---------------------------------------------------------------------------
  // Title case: `s.split(' ').map(w => w.charAt(0).toUpperCase() + w.slice(1)).join(' ')`.
  // ---------------------------------------------------------------------------

  function CapitalizeWord(w: string): string {
    if w == [] then [] else [UpperChar(w[0])] + w[1..]
  }

  function CapitalizeAll(ws: seq<string>): (r: seq<string>)
    ensures |r| == |ws|
  {
    if ws == [] then [] else [CapitalizeWord(ws[0])] + CapitalizeAll(ws[1..])
  }

  function TitleCase(s: string): string {
    Join(CapitalizeAll(Split(s, ' ')), " ")
  }

  /** Reference definition: walk the string, upper-casing each code point that starts a word. */
  function TitleCaseFrom(s: string, atWordStart: bool): (r: string)
    ensures |r| == |s|
  {
    if s == [] then []
    else [if atWordStart then UpperChar(s[0]) else s[0]] + TitleCaseFrom(s[1..], s[0] == ' ')
  }

  /** Capitalise every word of `ws`, except the first one when `first` is false. */
  function CapitalizeFrom(ws: seq<string>, first: bool): seq<string>
    requires |ws| >= 1
  {
    [if first then CapitalizeWord(ws[0]) else ws[0]] + CapitalizeAll(ws[1..])
  }

  lemma {:induction false} TitleCaseMatchesWalk(t: string, b: bool)
    ensures Join(CapitalizeFrom(Split(t, ' '), b), " ") == TitleCaseFrom(t, b)
  {
    if t != [] {
      TitleCaseMatchesWalk(t[1..], t[0] == ' ');
      if t[0] == ' ' {
        WalkSpaceStep(t, b);
      } else {
        WalkLetterStep(t, b);
      }
    }
  }

  lemma WalkSpaceStep(t: string, b: bool)
    requires t != [] && t[0] == ' '
    requires Join(CapitalizeFrom(Split(t[1..], ' '), true), " ") == TitleCaseFrom(t[1..], true)
    ensures Join(CapitalizeFrom(Split(t, ' '), b), " ") == TitleCaseFrom(t, b)
  {
    var su := Split(t[1..], ' ');
    var x := CapitalizeAll(su);
    assert x == CapitalizeFrom(su, true);
    assert CapitalizeFrom(Split(t, ' '), b) == [[]] + x by {
      assert Split(t, ' ') == [[]] + su;
      assert ([[]] + su)[1..] == su;
    }
    assert ([[]] + x)[1..] == x;
  }

  lemma WalkLetterStep(t: string, b: bool)
    requires t != [] && t[0] != ' '
    requires Join(CapitalizeFrom(Split(t[1..], ' '), false), " ") == TitleCaseFrom(t[1..], false)
    ensures Join(CapitalizeFrom(Split(t, ' '), b), " ") == TitleCaseFrom(t, b)
  {
    var su := Split(t[1..], ' ');
    var c' := if b then UpperChar(t[0]) else t[0];
    var rest := CapitalizeAll(su[1..]);
    assert CapitalizeFrom(Split(t, ' '), b) == [[c'] + su[0]] + rest by {
      assert Split(t, ' ') == [[t[0]] + su[0]] + su[1..];
    }
    JoinCons(c', su[0], rest, " ");
  }

  /** Title casing is the walk that upper-cases the first code point and every one after a space. */
  lemma TitleCaseIsWalk(s: string)
    ensures TitleCase(s) == TitleCaseFrom(s, true)
  {
    assert CapitalizeAll(Split(s, ' ')) == CapitalizeFrom(Split(s, ' '), true);
    TitleCaseMatchesWalk(s, true);
  }

  /**
   * What title casing does, position by position: a code point is upper-cased
   * exactly when it is the first one or follows a space; the length never changes.
   */
  lemma TitleCaseAt(s: string, i: nat)
    requires i < |s|
    ensures |TitleCase(s)| == |s|
    ensures TitleCase(s)[i] == if i == 0 || s[i - 1] == ' ' then UpperChar(s[i]) else s[i]
  {
    var ws := Split(s, ' ');
    assert CapitalizeAll(ws) == CapitalizeFrom(ws, true);
    TitleCaseMatchesWalk(s, true);
    WalkAt(s, true, i);
  }

  lemma {:induction false} WalkAt(s: string, b: bool, i: nat)
    requires i < |s|
    ensures TitleCaseFrom(s, b)[i] == if (if i == 0 then b else s[i - 1] == ' ') then UpperChar(s[i]) else s[i]
  {
    if i > 0 {
      WalkAt(s[1..], s[0] == ' ', i - 1);
    }
  }
}
