/**
 * The JavaScript string operations the CSP merge relies on: `String.prototype.trim`,
 * `String.prototype.split` with a one-character separator (with and without a limit)
 * and `Array.prototype.join`.
 */
module JsString {
  import opened Sequences

  /**
   * A code point that `trim` strips: ECMAScript's WhiteSpace (TAB, VT, FF, ZWNBSP and
   * every Space_Separator) and LineTerminator (LF, CR, LS, PS).
   */
  predicate IsWhitespace(c: char) {
    || c == '\t' || c == '\n' || c == '\U{000B}' || c == '\U{000C}' || c == '\r'
    || c == ' ' || c == '\U{00A0}' || c == '\U{1680}' || ('\U{2000}' <= c <= '\U{200A}')
    || c == '\U{2028}' || c == '\U{2029}' || c == '\U{202F}' || c == '\U{205F}'
    || c == '\U{3000}' || c == '\U{FEFF}'
  }

  /** Every character of `s` is whitespace. */
  predicate IsBlank(s: string) {
    forall k | 0 <= k < |s| :: IsWhitespace(s[k])
  }

  /** `s` without its leading whitespace. */
  function TrimStart(s: string): (r: string)
    ensures |r| <= |s| && r == s[|s| - |r|..]
    ensures IsBlank(s[..|s| - |r|])
    ensures r != [] ==> !IsWhitespace(r[0])
  {
    if s != [] && IsWhitespace(s[0]) then TrimStart(s[1..]) else s
  }

  /** `s` without its trailing whitespace. */
  function TrimEnd(s: string): (r: string)
    ensures r <= s
    ensures IsBlank(s[|r|..])
    ensures r != [] ==> !IsWhitespace(r[|r| - 1])
  {
    if s != [] && IsWhitespace(s[|s| - 1]) then
      var r := TrimEnd(s[..|s| - 1]);
      assert s[|r|..] == s[..|s| - 1][|r|..] + [s[|s| - 1]];
      r
    else s
  }

  /**
   * `r` is `s` with its leading and trailing whitespace removed: a block of `s` that
   * neither starts nor ends with whitespace, with only whitespace around it.
   */
  ghost predicate IsTrimOf(r: string, s: string) {
    && (exists i | 0 <= i <= |s| - |r| :: r <= s[i..] && IsBlank(s[..i]) && IsBlank(s[i + |r|..]))
    && (r != [] ==> !IsWhitespace(r[0]) && !IsWhitespace(r[|r| - 1]))
  }

  /** `String.prototype.trim`. */
  function Trim(s: string): (r: string)
    ensures IsTrimOf(r, s)
  {
    var u := TrimStart(s);
    var r := TrimEnd(u);
    TrimBoth(s, u, r);
    r
  }

  lemma TrimBoth(s: string, u: string, r: string)
    requires u == TrimStart(s) && r == TrimEnd(u)
    ensures IsTrimOf(r, s)
  {
    var i := |s| - |u|;
    assert u == s[i..];
    assert s[i + |r|..] == u[|r|..];
    assert r <= s[i..] && IsBlank(s[..i]) && IsBlank(s[i + |r|..]);
    if r != [] {
      assert r[0] == u[0];
    }
  }

  /** Trimming leaves nothing exactly when the string is all whitespace. */
  lemma TrimEmpty(s: string)
    ensures Trim(s) == [] <==> IsBlank(s)
  {
    var u := TrimStart(s);
    var n := |s| - |u|;
    assert Trim(s) == TrimEnd(u);
    if u == [] {
      assert s[..n] == s;
    } else {
      assert s[n] == u[0];
    }
  }

  /** `Array.prototype.join`: the parts with `sep` between consecutive ones. */
  function Join(parts: seq<string>, sep: string): string {
    if |parts| == 0 then ""
    else if |parts| == 1 then parts[0]
    else parts[0] + sep + Join(parts[1..], sep)
  }

  /**
   * `String.prototype.split` with a one-character separator: the maximal pieces of `s`
   * between occurrences of `sep`, so the empty string gives one empty piece.
   */
  function Split(s: string, sep: char): (parts: seq<string>)
    ensures |parts| > 0
    ensures forall i | 0 <= i < |parts| :: sep !in parts[i]
    ensures Join(parts, [sep]) == s
    decreases |s|
  {
    if sep !in s then [s]
    else
      var p := IndexOf(s, sep);
      var rest := Split(s[p + 1..], sep);
      assert s == s[..p] + [sep] + s[p + 1..];
      [s[..p]] + rest
  }

  /** `String.prototype.split(sep, limit)`: the first `limit` pieces of the full split. */
  function SplitLimit(s: string, sep: char, limit: nat): seq<string> {
    var parts := Split(s, sep);
    if |parts| <= limit then parts else parts[..limit]
  }

  /** The first piece of a split ends at the first separator, or at the end of the string. */
  lemma SplitHead(s: string, sep: char)
    ensures Split(s, sep)[0] <= s
    ensures var n := |Split(s, sep)[0]|; n == |s| || s[n] == sep
    ensures |Split(s, sep)| == 1 <==> sep !in s
  {
    if sep in s {
      var p := IndexOf(s, sep);
      assert Split(s, sep) == [s[..p]] + Split(s[p + 1..], sep);
    }
  }

  /** Splitting a string that starts with a separator-free word and a separator. */
  lemma SplitCons(a: string, sep: char, b: string)
    requires sep !in a
    ensures Split(a + [sep] + b, sep) == [a] + Split(b, sep)
  {
    var s := a + [sep] + b;
    IndexOfAfterPrefix(a, sep, b);
    assert s[..|a|] == a && s[|a| + 1..] == b;
  }

  /** Every piece of a join occurs inside the joined string. */
  lemma {:induction false} JoinContains(parts: seq<string>, sep: string, i: nat)
    requires i < |parts|
    ensures IsInfix(parts[i], Join(parts, sep))
  {
    if |parts| == 1 {
      PrefixIsInfix(parts[0], Join(parts, sep));
    } else if i == 0 {
      PrefixIsInfix(parts[0], parts[0] + (sep + Join(parts[1..], sep)));
      assert parts[0] + sep + Join(parts[1..], sep) == parts[0] + (sep + Join(parts[1..], sep));
    } else {
      JoinContains(parts[1..], sep, i - 1);
      InfixOfRight(parts[i], parts[0] + sep, Join(parts[1..], sep));
    }
  }
}
