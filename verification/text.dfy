/** Character and string helpers used by every part of the model: ASCII case
    mapping, whitespace trimming, splitting on a separator and decimal
    rendering of naturals. Strings are sequences of characters; only the
    ASCII range is given case and whitespace meaning. */
module Text {

  /** `p` is a prefix of `s`. */
  predicate IsPrefix<T(==)>(p: seq<T>, s: seq<T>) {
    |p| <= |s| && s[..|p|] == p
  }

  /** `p` is a prefix of `s` and strictly shorter. */
  predicate IsProperPrefix<T(==)>(p: seq<T>, s: seq<T>) {
    |p| < |s| && s[..|p|] == p
  }

  /** `s` starts with the character `c`. */
  predicate StartsWithChar(s: string, c: char) {
    |s| > 0 && s[0] == c
  }

  // ---------------------------------------------------------------------
  // ASCII case mapping
  // ---------------------------------------------------------------------

  predicate IsUpper(c: char) { 'A' <= c <= 'Z' }

  predicate IsLower(c: char) { 'a' <= c <= 'z' }

  function ToLower(c: char): (r: char)
    ensures !IsUpper(r)
    ensures IsUpper(c) ==> IsLower(r) && r as int == c as int + 32
    ensures !IsUpper(c) ==> r == c
  {
    if IsUpper(c) then (c as int + 32) as char else c
  }

  function ToUpper(c: char): (r: char)
    ensures !IsLower(r)
    ensures IsLower(c) ==> IsUpper(r) && r as int == c as int - 32
    ensures !IsLower(c) ==> r == c
  {
    if IsLower(c) then (c as int - 32) as char else c
  }

  /** `String.prototype.toLowerCase` restricted to ASCII letters. */
  function LowerStr(s: string): (r: string)
    ensures |r| == |s|
    ensures forall i :: 0 <= i < |s| ==> r[i] == ToLower(s[i])
  {
    if |s| == 0 then "" else [ToLower(s[0])] + LowerStr(s[1..])
  }

  predicate HasNoUpper(s: string) {
    forall i :: 0 <= i < |s| ==> !IsUpper(s[i])
  }

  /** Lower-casing leaves no upper-case letter and is idempotent. */
  lemma LowerStrIsLower(s: string)
    ensures HasNoUpper(LowerStr(s))
    ensures LowerStr(LowerStr(s)) == LowerStr(s)
  {
  }

  // ---------------------------------------------------------------------
  // Whitespace trimming
  // ---------------------------------------------------------------------

  /** The ASCII characters JavaScript's `String.prototype.trim` removes. */
  predicate IsJsSpace(c: char) {
    c == ' ' || c == '\t' || c == '\n' || c == '\r' || c == '\U{0B}' || c == '\U{0C}'
  }

  /** The ASCII characters Python's `str.strip()` removes: JavaScript's set
      plus the four information separators U+001C..U+001F. */
  predicate IsPySpace(c: char) {
    IsJsSpace(c) || ('\U{1C}' <= c <= '\U{1F}')
  }

  /** Characters `IsPySpace` accepts but `IsJsSpace` does not. */
  predicate IsSeparatorControl(c: char) {
    '\U{1C}' <= c <= '\U{1F}'
  }

  predicate AllSatisfy(s: string, ws: char -> bool) {
    forall i :: 0 <= i < |s| ==> ws(s[i])
  }

  /** The length of the longest leading run of characters that satisfy
      `ws`. */
  function LeadLength(s: string, ws: char -> bool): (k: nat)
    ensures k <= |s| && AllSatisfy(s[..k], ws) && (k < |s| ==> !ws(s[k]))
    decreases |s|
  {
    if |s| > 0 && ws(s[0]) then
      var k := LeadLength(s[1..], ws);
      assert forall i :: 1 <= i < 1 + k ==> s[i] == s[1..][i - 1];
      1 + k
    else 0
  }

  /** The length of the longest trailing run of characters that satisfy
      `ws`. */
  function TrailLength(s: string, ws: char -> bool): (k: nat)
    ensures k <= |s| && AllSatisfy(s[|s| - k..], ws) && (k < |s| ==> !ws(s[|s| - k - 1]))
    decreases |s|
  {
    if |s| > 0 && ws(s[|s| - 1]) then
      var k := TrailLength(s[..|s| - 1], ws);
      assert forall i :: |s| - 1 - k <= i < |s| - 1 ==> s[i] == s[..|s| - 1][i];
      1 + k
    else 0
  }

  function TrimStart(s: string, ws: char -> bool): (r: string)
    ensures |r| <= |s|
    ensures |r| > 0 ==> !ws(r[0])
  {
    s[LeadLength(s, ws)..]
  }

  function TrimEnd(s: string, ws: char -> bool): (r: string)
    ensures |r| <= |s|
    ensures |r| > 0 ==> !ws(r[|r| - 1])
  {
    s[..|s| - TrailLength(s, ws)]
  }

  /** Removes the longest leading and trailing runs of characters that
      satisfy `ws`. */
  function Trim(s: string, ws: char -> bool): (r: string)
    ensures |r| <= |s|
    ensures |r| > 0 ==> !ws(r[0]) && !ws(r[|r| - 1])
  {
    TrimEnd(TrimStart(s, ws), ws)
  }

  /** `s` is `lead + Trim(s, ws) + trail` with `lead` and `trail` made only
      of characters that satisfy `ws`. */
  lemma TrimSpec(s: string, ws: char -> bool)
    ensures var r := Trim(s, ws);
      exists i :: 0 <= i <= |s| - |r| && r == s[i..i + |r|]
        && AllSatisfy(s[..i], ws) && AllSatisfy(s[i + |r|..], ws)
  {
    var i := LeadLength(s, ws);
    var t := s[i..];
    var n := TrailLength(t, ws);
    var r := t[..|t| - n];
    assert r == Trim(s, ws);
    DropSlices(s, i, |r|);
    assert t[|t| - n..] == s[i + |r|..];
    assert r == s[i..i + |r|] && AllSatisfy(s[..i], ws) && AllSatisfy(s[i + |r|..], ws);
  }

  lemma DropSlices<T>(s: seq<T>, i: nat, n: nat)
    requires i + n <= |s|
    ensures s[i..][..n] == s[i..i + n] && s[i..][n..] == s[i + n..]
  {
  }

  /** A text that neither starts nor ends with whitespace is left as it is. */
  lemma TrimKeepsClean(s: string, ws: char -> bool)
    requires |s| > 0 ==> !ws(s[0]) && !ws(s[|s| - 1])
    ensures Trim(s, ws) == s
  {
    assert s[0..] == s && s[..|s|] == s;
  }

  /** `String.prototype.trim` on the ASCII range. */
  function JsTrim(s: string): (r: string)
    ensures |r| > 0 ==> !IsJsSpace(r[0]) && !IsJsSpace(r[|r| - 1])
  {
    Trim(s, IsJsSpace)
  }

  /** Python `str.strip()` on the ASCII range. */
  function PyStrip(s: string): (r: string)
    ensures |r| > 0 ==> !IsPySpace(r[0]) && !IsPySpace(r[|r| - 1])
  {
    Trim(s, IsPySpace)
  }

  predicate HasNoSeparatorControl(s: string) {
    forall i :: 0 <= i < |s| ==> !IsSeparatorControl(s[i])
  }

  lemma {:induction false} LeadLengthAgree(s: string)
    requires HasNoSeparatorControl(s)
    ensures LeadLength(s, IsJsSpace) == LeadLength(s, IsPySpace)
    decreases |s|
  {
    if |s| > 0 {
      LeadLengthAgree(s[1..]);
    }
  }

  lemma {:induction false} TrailLengthAgree(s: string)
    requires HasNoSeparatorControl(s)
    ensures TrailLength(s, IsJsSpace) == TrailLength(s, IsPySpace)
    decreases |s|
  {
    if |s| > 0 {
      TrailLengthAgree(s[..|s| - 1]);
    }
  }

  lemma TrimStartAgree(s: string)
    requires HasNoSeparatorControl(s)
    ensures TrimStart(s, IsJsSpace) == TrimStart(s, IsPySpace)
    ensures HasNoSeparatorControl(TrimStart(s, IsJsSpace))
  {
    LeadLengthAgree(s);
  }

  lemma TrimEndAgree(s: string)
    requires HasNoSeparatorControl(s)
    ensures TrimEnd(s, IsJsSpace) == TrimEnd(s, IsPySpace)
  {
    TrailLengthAgree(s);
  }

  /** On text without U+001C..U+001F, JavaScript's trim and Python's strip
      give the same result. */
  lemma {:induction false} TrimAgree(s: string)
    requires HasNoSeparatorControl(s)
    ensures JsTrim(s) == PyStrip(s)
  {
    TrimStartAgree(s);
    TrimEndAgree(TrimStart(s, IsJsSpace));
  }

  // ---------------------------------------------------------------------
  // Splitting and joining
  // ---------------------------------------------------------------------

  /** `s.split(sep)` for a one-character separator: never empty, and no
      piece contains the separator. */
  function Split(s: string, sep: char): (r: seq<string>)
    ensures |r| >= 1
    ensures forall i :: 0 <= i < |r| ==> sep !in r[i]
  {
    if |s| == 0 then [""]
    else if s[0] == sep then [""] + Split(s[1..], sep)
    else
      var rest := Split(s[1..], sep);
      [[s[0]] + rest[0]] + rest[1..]
  }

  /** `parts.join(sep)`. */
  function Join(parts: seq<string>, sep: char): string
    requires |parts| >= 1
  {
    if |parts| == 1 then parts[0] else parts[0] + [sep] + Join(parts[1..], sep)
  }

  /** Splitting then joining gives back the original string. */
  lemma {:induction false} JoinSplit(s: string, sep: char)
    ensures Join(Split(s, sep), sep) == s
  {
    if |s| == 0 {
    } else if s[0] == sep {
      JoinSplit(s[1..], sep);
      assert s == [sep] + s[1..];
    } else {
      JoinSplit(s[1..], sep);
      var rest := Split(s[1..], sep);
      if |rest| == 1 {
      } else {
        assert ([s[0]] + rest[0]) + [sep] + Join(rest[1..], sep)
          == [s[0]] + (rest[0] + [sep] + Join(rest[1..], sep));
      }
      assert s == [s[0]] + s[1..];
    }
  }

  /** A string without the separator splits into itself. */
  lemma {:induction false} SplitNoSep(s: string, sep: char)
    requires sep !in s
    ensures Split(s, sep) == [s]
  {
    if |s| > 0 {
      SplitNoSep(s[1..], sep);
      assert s == [s[0]] + s[1..];
    }
  }

  /** Splitting `a + sep + b` splits `a` and `b` separately. */
  lemma {:induction false} SplitConcat(a: string, b: string, sep: char)
    ensures Split(a + [sep] + b, sep) == Split(a, sep) + Split(b, sep)
  {
    if |a| == 0 {
      assert a + [sep] + b == [sep] + b;
      assert ([sep] + b)[1..] == b;
    } else {
      var s := a + [sep] + b;
      assert s[0] == a[0];
      assert s[1..] == a[1..] + [sep] + b;
      SplitConcat(a[1..], b, sep);
    }
  }

  /** The last piece of `s.split(sep)`: `s.split(sep).pop()`. */
  function LastPiece(s: string, sep: char): string {
    var parts := Split(s, sep);
    parts[|parts| - 1]
  }

  // ---------------------------------------------------------------------
  // Decimal rendering
  // ---------------------------------------------------------------------

  function DigitChar(d: nat): (c: char)
    requires d < 10
    ensures '0' <= c <= '9'
  {
    ('0' as int + d) as char
  }

  /** Decimal rendering of a natural number, as template literals produce
      it: digits only, no leading zero except for 0 itself. */
  function NatToString(n: nat): (r: string)
    ensures |r| >= 1
    ensures forall i :: 0 <= i < |r| ==> '0' <= r[i] <= '9'
    ensures r[0] == '0' ==> n == 0
    decreases n
  {
    if n < 10 then [DigitChar(n)] else NatToString(n / 10) + [DigitChar(n % 10)]
  }

  function DigitsValue(s: string): nat
    requires forall i :: 0 <= i < |s| ==> '0' <= s[i] <= '9'
  {
    if |s| == 0 then 0 else DigitsValue(s[..|s| - 1]) * 10 + (s[|s| - 1] as int - '0' as int)
  }

  /** Reading the rendered digits back gives the number: the rendering is
      injective, so distinct counters give distinct keys. */
  lemma {:induction false} NatToStringValue(n: nat)
    ensures DigitsValue(NatToString(n)) == n
    decreases n
  {
    if n >= 10 {
      NatToStringValue(n / 10);
      var s := NatToString(n);
      assert s[..|s| - 1] == NatToString(n / 10);
    }
  }

  lemma NatToStringInjective(m: nat, n: nat)
    requires NatToString(m) == NatToString(n)
    ensures m == n
  {
    NatToStringValue(m);
    NatToStringValue(n);
  }
}
