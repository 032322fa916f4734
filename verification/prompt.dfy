/** Prompt files: the `<info>` / `<prompt>` section parser, in its Python
    version (`parse_prompt_file`) and its browser version (`parsePrompt`),
    the browser's `loadPromptFile` guard and the Python loader's choice
    between the edited text box and the parsed prompt.

    The search for a section is the regular expression
    `<tag>([\s\S]*?)</tag>` with case-insensitive matching: the leftmost
    position where an opening tag starts a match, then the nearest closing
    tag after it. Letters are compared ASCII case-insensitively. */
module Prompt {
  import opened Wrappers
  import opened Text

  // ---------------------------------------------------------------------
  // Tag search
  // ---------------------------------------------------------------------

  /** `tag` (written in lower case) occurs at position `i` of `s`, letters
      compared without regard to case. */
  predicate TagAt(s: string, i: nat, tag: string) {
    i + |tag| <= |s| && LowerStr(s[i..i + |tag|]) == tag
  }

  /** The first position at or after `from` where `tag` occurs. */
  function FindTag(s: string, tag: string, from: nat): (r: Option<nat>)
    ensures r.Some? ==> from <= r.value && TagAt(s, r.value, tag)
    ensures forall j: nat :: from <= j && (r.None? || j < r.value) ==> !TagAt(s, j, tag)
    decreases |s| - from
  {
    if from + |tag| > |s| then None
    else if TagAt(s, from, tag) then Some(from)
    else FindTag(s, tag, from + 1)
  }

  function OpenTag(name: string): string { "<" + name + ">" }

  function CloseTag(name: string): string { "</" + name + ">" }

  /** The expression can match with its opening tag at `i` and its
      closing tag at `j`. */
  predicate MatchAt(s: string, name: string, i: nat, j: nat) {
    TagAt(s, i, OpenTag(name)) && i + |OpenTag(name)| <= j && TagAt(s, j, CloseTag(name))
  }

  /** A match: opening tag at `start`, closing tag at `close`. */
  datatype Block = Block(start: nat, close: nat)

  /** `re.search` / `String.prototype.match` of the section expression:
      the match that starts leftmost and, from there, is shortest; `None`
      when the expression matches nowhere. */
  function Search(s: string, name: string): (r: Option<Block>)
    ensures r.Some? ==> MatchAt(s, name, r.value.start, r.value.close)
  {
    var o := FindTag(s, OpenTag(name), 0);
    if o.None? then None
    else
      var c := FindTag(s, CloseTag(name), o.value + |OpenTag(name)|);
      if c.None? then None else Some(Block(o.value, c.value))
  }

  /** No match starts further left than the one found, and no match from
      the same start is shorter; when nothing is found, nothing matches. */
  lemma SearchSpec(s: string, name: string)
    ensures var r := Search(s, name);
      r.Some? ==> forall i: nat, j: nat :: MatchAt(s, name, i, j) ==>
        r.value.start < i || (r.value.start == i && r.value.close <= j)
    ensures Search(s, name).None? ==> forall i: nat, j: nat :: !MatchAt(s, name, i, j)
  {
  }

  /** The whole matched text, tags included (`group(0)`). */
  function Whole(s: string, name: string, b: Block): (r: string)
    requires MatchAt(s, name, b.start, b.close)
    ensures |r| >= |OpenTag(name)| + |CloseTag(name)|
  {
    s[b.start..b.close + |CloseTag(name)|]
  }

  /** The text between the tags (`group(1)`). */
  function Inner(s: string, name: string, b: Block): string
    requires MatchAt(s, name, b.start, b.close)
  {
    s[b.start + |OpenTag(name)|..b.close]
  }

  // ---------------------------------------------------------------------
  // Removing the matched block
  // ---------------------------------------------------------------------

  /** `pat` occurs at position `i` of `s`. */
  predicate OccursAt(s: string, pat: string, i: nat) {
    i + |pat| <= |s| && s[i..i + |pat|] == pat
  }

  /** The first position at or after `from` where `pat` occurs. */
  function IndexOf(s: string, pat: string, from: nat): (r: Option<nat>)
    ensures r.Some? ==> from <= r.value && OccursAt(s, pat, r.value)
    ensures forall j: nat :: from <= j && (r.None? || j < r.value) ==> !OccursAt(s, pat, j)
    decreases |s| - from
  {
    if from + |pat| > |s| then None
    else if OccursAt(s, pat, from) then Some(from)
    else IndexOf(s, pat, from + 1)
  }

  /** Python `s.replace(pat, "")`: every non-overlapping occurrence, found
      left to right, is removed. */
  function RemoveAll(s: string, pat: string): (r: string)
    requires |pat| > 0
    ensures |r| <= |s|
    decreases |s|
  {
    if |s| == 0 then ""
    else if IsPrefix(pat, s) then RemoveAll(s[|pat|..], pat)
    else [s[0]] + RemoveAll(s[1..], pat)
  }

  /** JavaScript `s.replace(pat, "")` with a string pattern: only the
      first occurrence is removed. */
  function RemoveFirst(s: string, pat: string): (r: string)
    ensures IndexOf(s, pat, 0).None? ==> r == s
    ensures IndexOf(s, pat, 0).Some? ==>
      var i := IndexOf(s, pat, 0).value;
      |r| == |s| - |pat| && s == r[..i] + pat + r[i..]
  {
    var o := IndexOf(s, pat, 0);
    if o.None? then s
    else
      var i := o.value;
      var r := s[..i] + s[i + |pat|..];
      assert r[..i] == s[..i] && r[i..] == s[i + |pat|..];
      assert s == s[..i] + s[i..i + |pat|] + s[i + |pat|..];
      r
  }

  /** Dropping the first character shifts every occurrence left by one. */
  lemma ShiftOccurs(s: string, pat: string, j: nat)
    requires |s| > 0
    ensures OccursAt(s[1..], pat, j) <==> OccursAt(s, pat, j + 1)
  {
    if j + 1 + |pat| <= |s| {
      assert s[1..][j..j + |pat|] == s[j + 1..j + 1 + |pat|];
    }
  }

  /** A text without an occurrence of `pat` is left as it is. */
  lemma {:induction false} RemoveAllAbsent(s: string, pat: string)
    requires |pat| > 0 && forall j: nat :: !OccursAt(s, pat, j)
    ensures RemoveAll(s, pat) == s
    decreases |s|
  {
    if |s| > 0 {
      assert !OccursAt(s, pat, 0);
      assert !IsPrefix(pat, s);
      forall j: nat
        ensures !OccursAt(s[1..], pat, j)
      {
        ShiftOccurs(s, pat, j);
      }
      RemoveAllAbsent(s[1..], pat);
      assert s == [s[0]] + s[1..];
    }
  }

  /** The scan keeps everything before the first occurrence, drops it and
      carries on after it. */
  lemma {:induction false} RemoveAllFirst(s: string, pat: string, i: nat)
    requires |pat| > 0 && OccursAt(s, pat, i)
    requires forall j: nat :: j < i ==> !OccursAt(s, pat, j)
    ensures RemoveAll(s, pat) == s[..i] + RemoveAll(s[i + |pat|..], pat)
    decreases i, 1
  {
    if i == 0 {
      RemoveAllAtStart(s, pat);
    } else {
      assert !OccursAt(s, pat, 0);
      assert !IsPrefix(pat, s);
      ShiftOccurs(s, pat, i - 1);
      ShiftAbsent(s, pat, i);
      RemoveAllLater(s, pat, i);
    }
  }

  /** The scan past a first character that does not start `pat`, with the
      first occurrence found in the tail. */
  lemma {:induction false} RemoveAllLater(s: string, pat: string, i: nat)
    requires |pat| > 0 && 0 < i && |s| > 0 && !IsPrefix(pat, s) && OccursAt(s[1..], pat, i - 1)
    requires forall j: nat :: j < i - 1 ==> !OccursAt(s[1..], pat, j)
    ensures RemoveAll(s, pat) == s[..i] + RemoveAll(s[i + |pat|..], pat)
    decreases i, 0
  {
    RemoveAllFirst(s[1..], pat, i - 1);
    RemoveAllCons(s, pat, i);
  }

  /** No occurrence before `i` in `s` means none before `i - 1` in its
      tail. */
  lemma ShiftAbsent(s: string, pat: string, i: nat)
    requires |s| > 0
    ensures (forall j: nat :: j < i ==> !OccursAt(s, pat, j)) ==> forall j: nat :: j < i - 1 ==> !OccursAt(s[1..], pat, j)
  {
    forall j: nat | j < i - 1 && OccursAt(s[1..], pat, j)
      ensures OccursAt(s, pat, j + 1)
    {
      ShiftOccurs(s, pat, j);
    }
  }

  /** A text that starts with `pat` loses it and the scan carries on. */
  lemma RemoveAllAtStart(s: string, pat: string)
    requires |pat| > 0 && OccursAt(s, pat, 0)
    ensures RemoveAll(s, pat) == s[..0] + RemoveAll(s[|pat|..], pat)
  {
    assert IsPrefix(pat, s) by {
      assert s[0..|pat|] == s[..|pat|];
    }
    assert s[..0] + RemoveAll(s[|pat|..], pat) == RemoveAll(s[|pat|..], pat);
  }

  /** The scan step past a first character that does not start `pat`. */
  lemma RemoveAllCons(s: string, pat: string, i: nat)
    requires |pat| > 0 && 0 < i && i + |pat| <= |s| && !IsPrefix(pat, s)
    requires RemoveAll(s[1..], pat) == s[1..][..i - 1] + RemoveAll(s[1..][i - 1 + |pat|..], pat)
    ensures RemoveAll(s, pat) == s[..i] + RemoveAll(s[i + |pat|..], pat)
  {
    assert s[1..][i - 1 + |pat|..] == s[i + |pat|..];
    ConsSlice(s, i, RemoveAll(s[i + |pat|..], pat));
  }

  /** Re-associating a first character with the slice that follows it. */
  lemma ConsSlice(s: string, i: nat, r: string)
    requires 0 < i <= |s|
    ensures [s[0]] + (s[1..][..i - 1] + r) == s[..i] + r
  {
    assert s[..i] == [s[0]] + s[1..][..i - 1];
  }

  lemma OccursInSuffix(s: string, pat: string, k: nat, j: nat)
    requires k <= |s|
    ensures OccursAt(s[k..], pat, j) ==> OccursAt(s, pat, k + j)
  {
    if j + |pat| <= |s| - k {
      assert s[k..][j..j + |pat|] == s[k + j..k + j + |pat|];
    }
  }

  /** When `pat` occurs exactly once, removing every copy and removing the
      first copy agree. */
  lemma RemoveOnlyCopy(s: string, pat: string, i: nat)
    requires |pat| > 0 && OccursAt(s, pat, i)
    requires forall j: nat :: OccursAt(s, pat, j) ==> j == i
    ensures RemoveAll(s, pat) == RemoveFirst(s, pat) == s[..i] + s[i + |pat|..]
  {
    RemoveAllFirst(s, pat, i);
    var t := s[i + |pat|..];
    forall j: nat
      ensures !OccursAt(t, pat, j)
    {
      OccursInSuffix(s, pat, i + |pat|, j);
    }
    RemoveAllAbsent(t, pat);
    assert IndexOf(s, pat, 0) == Some(i);
  }

  // ---------------------------------------------------------------------
  // The two parsers
  // ---------------------------------------------------------------------

  datatype Parsed = Parsed(info: string, prompt: string)

  /** `s` neither starts nor ends with Python whitespace. */
  predicate PyClean(s: string) {
    |s| > 0 ==> !IsPySpace(s[0]) && !IsPySpace(s[|s| - 1])
  }

  /** `s` neither starts nor ends with JavaScript whitespace. */
  predicate JsClean(s: string) {
    |s| > 0 ==> !IsJsSpace(s[0]) && !IsJsSpace(s[|s| - 1])
  }

  /** `parse_prompt_file(content)` of the Python node. */
  function ParsePromptFile(content: string): (r: Parsed)
    ensures PyClean(r.info) && PyClean(r.prompt)
    ensures Search(content, "info").None? ==> r.info == ""
    ensures Search(content, "prompt").Some? ==>
      var b := Search(content, "prompt").value;
      r.prompt == PyStrip(Inner(content, "prompt", b))
    ensures Search(content, "info").Some? ==>
      var b := Search(content, "info").value;
      r.info == PyStrip(Inner(content, "info", b))
    ensures Search(content, "prompt").None? && Search(content, "info").Some? ==>
      var b := Search(content, "info").value;
      r.prompt == PyStrip(RemoveAll(content, Whole(content, "info", b)))
    ensures Search(content, "prompt").None? && Search(content, "info").None? ==> r.prompt == PyStrip(content)
  {
    var im := Search(content, "info");
    var pm := Search(content, "prompt");
    var info := if im.None? then "" else PyStrip(Inner(content, "info", im.value));
    var prompt :=
      if pm.Some? then PyStrip(Inner(content, "prompt", pm.value))
      else if im.Some? then PyStrip(RemoveAll(content, Whole(content, "info", im.value)))
      else PyStrip(content);
    Parsed(info, prompt)
  }

  /** `parsePrompt(content)` of the browser extension. */
  function ParsePrompt(content: string): (r: Parsed)
    ensures JsClean(r.info) && JsClean(r.prompt)
    ensures Search(content, "info").None? ==> r.info == ""
    ensures Search(content, "prompt").Some? ==>
      var b := Search(content, "prompt").value;
      r.prompt == JsTrim(Inner(content, "prompt", b))
    ensures Search(content, "info").Some? ==>
      var b := Search(content, "info").value;
      r.info == JsTrim(Inner(content, "info", b))
    ensures Search(content, "prompt").None? && Search(content, "info").Some? ==>
      var b := Search(content, "info").value;
      r.prompt == JsTrim(RemoveFirst(content, Whole(content, "info", b)))
    ensures Search(content, "prompt").None? && Search(content, "info").None? ==> r.prompt == JsTrim(content)
  {
    var im := Search(content, "info");
    var pm := Search(content, "prompt");
    var info := if im.None? then "" else JsTrim(Inner(content, "info", im.value));
    var prompt :=
      if pm.Some? then JsTrim(Inner(content, "prompt", pm.value))
      else if im.Some? then JsTrim(RemoveFirst(content, Whole(content, "info", im.value)))
      else JsTrim(content);
    Parsed(info, prompt)
  }

  /** The matched info block occurs in `content` only where it matched. */
  predicate InfoBlockUnique(content: string) {
    var im := Search(content, "info");
    im.Some? ==>
      forall j: nat :: j < |content| && OccursAt(content, Whole(content, "info", im.value), j) ==> j == im.value.start
  }

  lemma SliceKeepsNoSeparator(s: string, i: nat, j: nat)
    requires HasNoSeparatorControl(s) && i <= j <= |s|
    ensures HasNoSeparatorControl(s[i..j])
  {
    assert forall k :: 0 <= k < j - i ==> s[i..j][k] == s[i + k];
  }

  /** The info field: both parsers trim the same inner text. */
  lemma InfoAgrees(content: string)
    requires HasNoSeparatorControl(content)
    ensures ParsePromptFile(content).info == ParsePrompt(content).info
  {
    var im := Search(content, "info");
    if im.Some? {
      var b := im.value;
      SliceKeepsNoSeparator(content, b.start + |OpenTag("info")|, b.close);
      TrimAgree(Inner(content, "info", b));
    }
  }

  /** The prompt field when a prompt block exists. */
  lemma PromptBlockAgrees(content: string)
    requires HasNoSeparatorControl(content) && Search(content, "prompt").Some?
    ensures ParsePromptFile(content).prompt == ParsePrompt(content).prompt
  {
    var b := Search(content, "prompt").value;
    SliceKeepsNoSeparator(content, b.start + |OpenTag("prompt")|, b.close);
    TrimAgree(Inner(content, "prompt", b));
  }

  /** The prompt field when only an info block exists and it is not
      repeated: both remove the one copy. */
  lemma RemainderAgrees(content: string)
    requires HasNoSeparatorControl(content)
    requires Search(content, "prompt").None? && Search(content, "info").Some?
    requires InfoBlockUnique(content)
    ensures ParsePromptFile(content).prompt == ParsePrompt(content).prompt
  {
    var b := Search(content, "info").value;
    var w := Whole(content, "info", b);
    assert OccursAt(content, w, b.start);
    RemoveOnlyCopy(content, w, b.start);
    var r := content[..b.start] + content[b.start + |w|..];
    assert forall k :: 0 <= k < |r| ==> r[k] in content;
    TrimAgree(r);
  }

  /** The two parsers agree on text without the characters U+001C..U+001F
      (which only Python strips) whenever a prompt block exists or the
      matched info block is not repeated. */
  lemma ParsersAgree(content: string)
    requires HasNoSeparatorControl(content)
    requires Search(content, "prompt").None? ==> InfoBlockUnique(content)
    ensures ParsePromptFile(content) == ParsePrompt(content)
  {
    InfoAgrees(content);
    if Search(content, "prompt").Some? {
      PromptBlockAgrees(content);
    } else if Search(content, "info").Some? {
      RemainderAgrees(content);
    } else {
      TrimAgree(content);
    }
  }

  // ---------------------------------------------------------------------
  // Worked cases
  // ---------------------------------------------------------------------

  /** A tag that occurs at `j` fixes the case-folded characters there. */
  lemma TagAtChar(s: string, j: nat, tag: string, k: nat)
    ensures TagAt(s, j, tag) && k < |tag| ==> ToLower(s[j + k]) == tag[k]
  {
    if TagAt(s, j, tag) && k < |tag| {
      assert LowerStr(s[j..j + |tag|])[k] == ToLower(s[j + k]);
    }
  }

  /** A tag written verbatim (in lower case) is found where it stands. */
  lemma LowerKeepsTag(s: string, i: nat, tag: string)
    requires i + |tag| <= |s| && s[i..i + |tag|] == tag && HasNoUpper(tag)
    ensures TagAt(s, i, tag)
  {
    assert LowerStr(tag) == tag;
  }

  /** No `<` in `s` is followed by a `p` or `P`. */
  predicate NoPromptOpening(s: string) {
    forall k: nat {:trigger s[k]} :: k + 1 < |s| && s[k] == '<' ==> ToLower(s[k + 1]) != 'p'
  }

  /** `s` holds no `<` at all. */
  predicate NoAngle(s: string) {
    forall k :: 0 <= k < |s| ==> s[k] != '<'
  }

  lemma NoPromptOpeningConcat(a: string, b: string)
    requires NoPromptOpening(a) && NoPromptOpening(b)
    requires |a| > 0 ==> a[|a| - 1] != '<'
    ensures NoPromptOpening(a + b)
  {
    var s := a + b;
    forall k: nat | k + 1 < |s| && s[k] == '<'
      ensures ToLower(s[k + 1]) != 'p'
    {
      if k + 1 < |a| {
        assert s[k] == a[k] && s[k + 1] == a[k + 1];
      } else {
        assert s[k] == b[k - |a|] && s[k + 1] == b[k + 1 - |a|];
      }
    }
  }

  /** A text that passes `NoPromptOpening` holds no prompt block. */
  lemma NoPromptBlock(s: string)
    requires NoPromptOpening(s)
    ensures Search(s, "prompt").None?
  {
    forall j: nat
      ensures !TagAt(s, j, OpenTag("prompt"))
    {
      TagAtChar(s, j, OpenTag("prompt"), 0);
      TagAtChar(s, j, OpenTag("prompt"), 1);
    }
  }

  /** The info block `<info>x</info>`. */
  function InfoBlock(x: string): string {
    OpenTag("info") + x + CloseTag("info")
  }

  lemma InfoBlockShape(x: string)
    requires NoAngle(x)
    ensures var w := InfoBlock(x);
      |w| == |x| + 13 && w[0] == '<' && w[|w| - 1] == '>' && NoPromptOpening(w)
  {
    var o, c := OpenTag("info"), CloseTag("info");
    assert o == "<info>" && c == "</info>";
    assert NoPromptOpening(o) && NoPromptOpening(c);
    NoPromptOpeningConcat(o, x);
    NoPromptOpeningConcat(o + x, c);
  }

  /** An opening tag at the start and a first closing tag at `n` after it
      make the match. */
  lemma LeadingMatch(s: string, name: string, n: nat)
    requires TagAt(s, 0, OpenTag(name)) && |OpenTag(name)| <= n && TagAt(s, n, CloseTag(name))
    requires forall j: nat :: |OpenTag(name)| <= j < n ==> !TagAt(s, j, CloseTag(name))
    ensures Search(s, name) == Some(Block(0, n))
  {
    var c := FindTag(s, CloseTag(name), |OpenTag(name)|);
    assert c.Some? && c.value <= n;
  }

  /** A text that starts with a block around `x` without `<` matches it
      there, for a name written in lower case. */
  lemma LeadingBlock(name: string, x: string, rest: string)
    requires NoAngle(x) && HasNoUpper(OpenTag(name)) && HasNoUpper(CloseTag(name))
    ensures Search(OpenTag(name) + x + CloseTag(name) + rest, name) == Some(Block(0, |OpenTag(name)| + |x|))
  {
    var o, c := OpenTag(name), CloseTag(name);
    var n := |o| + |x|;
    var s := o + x + c + rest;
    assert s == o + (x + (c + rest));
    assert s[0..|o|] == o;
    assert s[n..n + |c|] == c;
    LowerKeepsTag(s, 0, o);
    LowerKeepsTag(s, n, c);
    forall j: nat | |o| <= j < n
      ensures !TagAt(s, j, c)
    {
      TagAtChar(s, j, c, 0);
      assert s[j] == x[j - |o|];
    }
    LeadingMatch(s, name, n);
  }

  /** The info tags are written in lower case. */
  lemma InfoTags()
    ensures OpenTag("info") == "<info>" && CloseTag("info") == "</info>"
    ensures HasNoUpper(OpenTag("info")) && HasNoUpper(CloseTag("info"))
  {
  }

  /** A text that starts with an info block around `x` matches it there. */
  lemma LeadingInfoBlock(x: string, rest: string)
    requires NoAngle(x)
    ensures Search(InfoBlock(x) + rest, "info") == Some(Block(0, 6 + |x|))
  {
    InfoTags();
    LeadingBlock("info", x, rest);
  }

  /** An info block followed by text without `<`: the info is the block's
      text and the prompt is the text after it, both stripped. */
  lemma InfoThenText(x: string, body: string)
    requires NoAngle(x) && NoAngle(body)
    ensures ParsePromptFile(InfoBlock(x) + body) == Parsed(PyStrip(x), PyStrip(body))
  {
    var s := InfoBlock(x) + body;
    var b := Block(0, 6 + |x|);
    InfoThenTextSearch(x, body);
    InfoThenTextRest(x, body);
    assert ParsePromptFile(s).info == PyStrip(Inner(s, "info", b));
    assert ParsePromptFile(s).prompt == PyStrip(RemoveAll(s, Whole(s, "info", b)));
  }

  /** Before text without `<`, the info block matches at the start, its
      inner text is `x`, and no prompt block matches. */
  lemma InfoThenTextSearch(x: string, body: string)
    requires NoAngle(x) && NoAngle(body)
    ensures var s := InfoBlock(x) + body;
      && Search(s, "info") == Some(Block(0, 6 + |x|))
      && Search(s, "prompt").None?
      && Inner(s, "info", Block(0, 6 + |x|)) == x
      && Whole(s, "info", Block(0, 6 + |x|)) == InfoBlock(x)
  {
    var w := InfoBlock(x);
    LeadingInfoBlock(x, body);
    InfoBlockShape(x);
    NoAngleNoOpening(body);
    NoPromptOpeningConcat(w, body);
    NoPromptBlock(w + body);
    InfoBlockSlices(x, body);
  }

  /** Text without `<` opens no prompt block. */
  lemma NoAngleNoOpening(s: string)
    requires NoAngle(s)
    ensures NoPromptOpening(s)
  {
  }

  /** Where the inner text and the whole block of a leading info block
      lie. */
  lemma InfoBlockSlices(x: string, rest: string)
    ensures var s := InfoBlock(x) + rest;
      |InfoBlock(x)| == 13 + |x| && s[6..6 + |x|] == x && s[0..13 + |x|] == InfoBlock(x)
  {
    InfoTags();
    var s := InfoBlock(x) + rest;
    assert s == "<info>" + (x + ("</info>" + rest));
  }

  /** Removing every copy of the leading info block leaves the text after
      it, which holds no `<` and so no further copy. */
  lemma InfoThenTextRest(x: string, body: string)
    requires NoAngle(x) && NoAngle(body)
    ensures RemoveAll(InfoBlock(x) + body, InfoBlock(x)) == body
  {
    var w := InfoBlock(x);
    var s := w + body;
    InfoBlockShape(x);
    RemoveAllFirst(s, w, 0);
    assert s[|w|..] == body;
    forall j: nat
      ensures !OccursAt(body, w, j)
    {
      if j + |w| <= |body| {
        assert body[j..j + |w|][0] == body[j];
      }
    }
    RemoveAllAbsent(body, w);
  }

  lemma ExampleText()
    ensures InfoBlock("Test info") + "Actual prompt body" == "<info>Test info</info>Actual prompt body"
  {
    ExampleBlock();
    ExampleJoin();
  }

  lemma ExampleBlock()
    ensures InfoBlock("Test info") == "<info>Test info</info>"
  {
    InfoTags();
  }

  lemma ExampleJoin()
    ensures "<info>Test info</info>" + "Actual prompt body" == "<info>Test info</info>Actual prompt body"
  {
  }

  lemma ExamplePieces()
    ensures NoAngle("Test info") && NoAngle("Actual prompt body")
  {
  }

  lemma ExampleStripped(s: string)
    requires s == "Test info" || s == "Actual prompt body"
    ensures PyStrip(s) == s
  {
    assert !IsPySpace(s[0]) && !IsPySpace(s[|s| - 1]);
    TrimKeepsClean(s, IsPySpace);
  }

  /** The documented example: an info block followed by the prompt text. */
  lemma InfoThenBody(content: string)
    requires content == "<info>Test info</info>Actual prompt body"
    ensures ParsePromptFile(content) == Parsed("Test info", "Actual prompt body")
  {
    ExampleText();
    ExamplePieces();
    ExampleStripped("Test info");
    ExampleStripped("Actual prompt body");
    InfoThenText("Test info", "Actual prompt body");
  }

  /** When the matched info block is repeated and there is no prompt block,
      Python removes both copies and the browser only the first, so the
      two prompts differ. */
  lemma RepeatedInfoBlock(x: string)
    requires NoAngle(x)
    ensures var w := InfoBlock(x);
      && ParsePromptFile(w + w).prompt == ""
      && ParsePrompt(w + w).prompt == w
      && ParsePromptFile(w + w).prompt != ParsePrompt(w + w).prompt
  {
    RepeatedPython(x);
    RepeatedBrowser(x);
    InfoBlockShape(x);
  }

  /** In a repeated info block the first copy matches and no prompt block
      does. */
  lemma RepeatedSearch(x: string)
    requires NoAngle(x)
    ensures var w := InfoBlock(x);
      && Search(w + w, "info") == Some(Block(0, 6 + |x|))
      && Search(w + w, "prompt").None?
      && Whole(w + w, "info", Block(0, 6 + |x|)) == w
  {
    var w := InfoBlock(x);
    LeadingInfoBlock(x, w);
    InfoBlockShape(x);
    NoPromptOpeningConcat(w, w);
    NoPromptBlock(w + w);
  }

  /** Python removes both copies of a repeated info block. */
  lemma RepeatedPython(x: string)
    requires NoAngle(x)
    ensures ParsePromptFile(InfoBlock(x) + InfoBlock(x)).prompt == ""
  {
    var w := InfoBlock(x);
    var s := w + w;
    RepeatedSearch(x);
    InfoBlockShape(x);
    RemoveAllFirst(s, w, 0);
    assert s[|w|..] == w;
    RemoveAllFirst(w, w, 0);
    assert RemoveAll(s, w) == "";
  }

  /** The browser removes only the first copy of a repeated info block. */
  lemma RepeatedBrowser(x: string)
    requires NoAngle(x)
    ensures ParsePrompt(InfoBlock(x) + InfoBlock(x)).prompt == InfoBlock(x)
  {
    var w := InfoBlock(x);
    var s := w + w;
    RepeatedSearch(x);
    InfoBlockShape(x);
    RemoveFirstLeading(s, w);
    assert s[|w|..] == w;
    TrimKeepsClean(w, IsJsSpace);
    var b := Block(0, 6 + |x|);
    assert ParsePrompt(s).prompt == JsTrim(RemoveFirst(s, Whole(s, "info", b)));
  }

  /** Removing a pattern the text starts with leaves the rest. */
  lemma RemoveFirstLeading(s: string, pat: string)
    requires |pat| <= |s| && s[..|pat|] == pat
    ensures RemoveFirst(s, pat) == s[|pat|..]
  {
    assert OccursAt(s, pat, 0) by {
      assert s[0..|pat|] == s[..|pat|];
    }
  }

  // ---------------------------------------------------------------------
  // Loaders
  // ---------------------------------------------------------------------

  /** `loadPromptFile(promptName)` of the browser extension. `name` is
      `None` for `undefined` or `null`; `fetched` is the response text, or
      `None` when the request failed or answered with an error status. */
  function LoadPromptFile(name: Option<string>, fetched: Option<string>): (r: Parsed)
    ensures name.None? || name.value == "" || fetched.None? ==> r == Parsed("", "")
    ensures name.Some? && name.value != "" && fetched.Some? ==> r == ParsePrompt(fetched.value)
    ensures JsClean(r.info) && JsClean(r.prompt)
  {
    if name.None? || name.value == "" then Parsed("", "")
    else if fetched.None? then Parsed("", "")
    else ParsePrompt(fetched.value)
  }

  /** `load_prompt(prompt, info_text, prompt_text)` of the Python node.
      `content` is the prompt file's text, `""` when the file is missing. */
  function LoadPrompt(content: string, promptText: string): (r: string)
    ensures PyClean(r)
    ensures PyStrip(promptText) != "" ==> r == PyStrip(promptText)
    ensures PyStrip(promptText) == "" ==> r == ParsePromptFile(content).prompt
  {
    var edited := PyStrip(promptText);
    if edited != "" then edited else ParsePromptFile(content).prompt
  }

  /** A missing prompt file parses to two empty fields, so the loader
      returns the stripped text box, blank or not. */
  lemma MissingFile(promptText: string)
    ensures ParsePromptFile("") == Parsed("", "")
    ensures LoadPrompt("", promptText) == PyStrip(promptText)
  {
    assert PyStrip("") == "";
  }
}
