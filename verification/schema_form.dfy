/** Building a node's field set from a schema tree
    (`buildWidgetsFromSchema`, `prettifyLabel` and the "other" rule of
    `attachOtherHandler` in the structured-builder front end). */
module SchemaForm {
  import opened Wrappers
  import opened Text
  import opened Json
  import opened Widgets

  // ---------------------------------------------------------------------
  // Labels
  // ---------------------------------------------------------------------

  /** The regular-expression class `\w`. */
  predicate IsWordChar(c: char) {
    IsLower(c) || IsUpper(c) || ('0' <= c <= '9') || c == '_'
  }

  /** A letter or digit: a word character other than `_`. */
  predicate IsAlnum(c: char) {
    IsLower(c) || IsUpper(c) || ('0' <= c <= '9')
  }

  /** `s.replace(/_/g, " ")`. */
  function SpaceUnderscores(s: string): (r: string)
    ensures |r| == |s|
    ensures forall i :: 0 <= i < |s| ==> r[i] == (if s[i] == '_' then ' ' else s[i])
  {
    if |s| == 0 then "" else [if s[0] == '_' then ' ' else s[0]] + SpaceUnderscores(s[1..])
  }

  /** `s.replace(/\b\w/g, c => c.toUpperCase())`, scanning left to right;
      `afterWord` says whether the character before `s` was a word character. */
  function CapitalizeWords(s: string, afterWord: bool): (r: string)
    ensures |r| == |s|
  {
    if |s| == 0 then ""
    else
      var c := if IsWordChar(s[0]) && !afterWord then ToUpper(s[0]) else s[0];
      [c] + CapitalizeWords(s[1..], IsWordChar(s[0]))
  }

  /** `prettifyLabel(key)`. */
  function PrettifyLabel(key: string): string {
    CapitalizeWords(SpaceUnderscores(key), false)
  }

  lemma {:induction false} CapitalizeAt(s: string, afterWord: bool, i: nat)
    requires i < |s|
    ensures CapitalizeWords(s, afterWord)[i]
      == if IsWordChar(s[i]) && (if i == 0 then !afterWord else !IsWordChar(s[i - 1]))
         then ToUpper(s[i]) else s[i]
  {
    if i > 0 {
      CapitalizeAt(s[1..], IsWordChar(s[0]), i - 1);
    }
  }

  /** Each label character is the key's character with `_` turned into a
      space and a letter that starts a word upper-cased; in particular the
      label is as long as the key and contains no `_`. */
  lemma PrettifyLabelSpec(key: string)
    ensures |PrettifyLabel(key)| == |key|
    ensures forall i {:trigger PrettifyLabel(key)[i]} :: 0 <= i < |key| ==> (PrettifyLabel(key)[i]
      == if IsAlnum(key[i]) && (i == 0 || !IsAlnum(key[i - 1])) then ToUpper(key[i])
         else if key[i] == '_' then ' ' else key[i])
    ensures '_' !in PrettifyLabel(key)
  {
    var t := SpaceUnderscores(key);
    forall i | 0 <= i < |key|
      ensures PrettifyLabel(key)[i]
        == if IsAlnum(key[i]) && (i == 0 || !IsAlnum(key[i - 1])) then ToUpper(key[i])
           else if key[i] == '_' then ' ' else key[i]
    {
      CapitalizeAt(t, false, i);
    }
    forall i | 0 <= i < |key| ensures PrettifyLabel(key)[i] != '_' {
      CapitalizeAt(t, false, i);
      if IsAlnum(key[i]) {
        assert IsAlnum(ToUpper(key[i]));
      }
    }
  }

  /** Prettifying a label again changes nothing. */
  lemma PrettifyLabelIdempotent(key: string)
    ensures PrettifyLabel(PrettifyLabel(key)) == PrettifyLabel(key)
  {
    var r := PrettifyLabel(key);
    PrettifyLabelSpec(key);
    PrettifyLabelSpec(r);
    forall i | 0 <= i < |r| ensures IsAlnum(r[i]) == IsAlnum(key[i]) {
      assert r[i] == PrettifyLabel(key)[i];
      if IsAlnum(key[i]) {
        assert IsAlnum(ToUpper(key[i]));
      }
    }
    forall i | 0 <= i < |r| ensures PrettifyLabel(r)[i] == r[i] {
      assert PrettifyLabel(r)[i] == if IsAlnum(r[i]) && (i == 0 || !IsAlnum(r[i - 1])) then ToUpper(r[i])
        else if r[i] == '_' then ' ' else r[i];
      assert r[i] != '_';
      if IsAlnum(r[i]) && (i == 0 || !IsAlnum(r[i - 1])) {
        assert r[i] == ToUpper(key[i]);
      }
    }
  }

  // ---------------------------------------------------------------------
  // The "other" option of a dropdown
  // ---------------------------------------------------------------------

  /** The dropdown sentinel that asks the user for a custom value. */
  const OtherOption: JVal := JStr("other")

  /** The change handler of a dropdown. `reply` is what the user answers
      to the custom-value request (`None` for a cancelled request); it is
      only consulted when the selected value is the "other" sentinel. */
  function OnComboChange(w: Widget, reply: Option<string>): (r: Widget)
    requires w.kind.Combo?
    ensures r == w.(value := r.value)
    ensures w.value != Some(OtherOption) ==> r == w
    ensures w.value == Some(OtherOption) && reply.Some? && reply.value != ""
      ==> r.value == Some(JStr(reply.value))
    ensures w.value == Some(OtherOption) && (reply.None? || reply.value == "")
      ==> r.value == Some(FirstOptionOrEmpty(w.kind.options))
  {
    if w.value != Some(OtherOption) then w
    else if reply.Some? && reply.value != "" then w.(value := Some(JStr(reply.value)))
    else w.(value := Some(FirstOptionOrEmpty(w.kind.options)))
  }

  /** `options.values[0] || ""`. */
  function FirstOptionOrEmpty(options: seq<JVal>): (r: JVal)
    ensures r == JStr("") || (|options| > 0 && r == options[0])
    ensures JsTruthy(r) <==> |options| > 0 && JsTruthy(options[0])
  {
    if |options| > 0 && JsTruthy(options[0]) then options[0] else JStr("")
  }

  /** After the handler the value is never undefined, and it is the
      sentinel again only if the user typed it or it is the first option. */
  lemma OtherSelectionResolves(w: Widget, reply: Option<string>)
    requires w.kind.Combo? && w.value == Some(OtherOption)
    ensures OnComboChange(w, reply).value.Some?
    ensures OnComboChange(w, reply).value == Some(OtherOption)
      ==> reply == Some("other") || (|w.kind.options| > 0 && w.kind.options[0] == OtherOption)
  {
  }

  // ---------------------------------------------------------------------
  // Schema levels
  // ---------------------------------------------------------------------

  /** `v?._meta?.[name]`, reading only a `_meta` that is a mapping. */
  function MetaOf(v: JVal, name: string): Option<JVal> {
    match v
    case JObj(fs) =>
      var meta := Get(fs, "_meta");
      if meta.Some? && meta.value.JObj? then Get(meta.value.fields, name) else None
    case _ => None
  }

  /** `schema._conditions || {}`, for a mapping-valued `_conditions`. */
  function LocalConditions(fs: Fields): Fields {
    var c := Get(fs, "_conditions");
    if c.Some? && c.value.JObj? then c.value.fields else []
  }

  /** The label of an entry: `_meta.display_name` of its value, if truthy,
      else the prettified key. */
  function Label(key: string, value: JVal): string {
    var dn := MetaOf(value, "display_name");
    if JsTruthyOpt(dn) then JsString(dn.value) else PrettifyLabel(key)
  }

  /** The reserved path of the gender pseudo-field. */
  const GenderPath: string := "Gender"

  function GenderWidget(g: JVal): Widget {
    Widget(GenderPseudo, "Gender", Some(g), Some(GenderPath), None, false, None)
  }

  /** The pseudo-field a truthy `_meta.gender` of a level emits. */
  function GenderWidgets(fs: Fields): (r: seq<Widget>)
    ensures |r| <= 1
  {
    var g := MetaOf(JObj(fs), "gender");
    if JsTruthyOpt(g) then [GenderWidget(g.value)] else []
  }

  /** `buildWidgetsFromSchema(node, schema, path, inherited)` for a schema
      level with entries `fs`: the level's conditions are the inherited
      ones overridden by its own `_conditions`. */
  function BuildLevel(fs: Fields, path: string, inherited: Fields): seq<Widget>
    decreases fs, 1
  {
    var merged := Merge(inherited, LocalConditions(fs));
    GenderWidgets(fs) + BuildEntries(fs, path, merged)
  }

  /** The widgets of the keyed entries `es`, in key order. */
  function BuildEntries(es: Fields, path: string, merged: Fields): seq<Widget>
    decreases es, 0
  {
    if |es| == 0 then []
    else
      var e := es[0];
      assert e in es && e.1 < e;
      EntryWidgets(e.0, e.1, path, merged) + BuildEntries(es[1..], path, merged)
  }

  /** The widgets one entry of a schema level produces. */
  function EntryWidgets(key: string, value: JVal, path: string, merged: Fields): seq<Widget>
    decreases value, 2
  {
    if StartsWithChar(key, '_') then []
    else
      var full := FullPath(path, key);
      var caption := Label(key, value);
      match value
      case JArr(opts) =>
        [Widget(Combo(opts), caption, if |opts| > 0 then Some(opts[0]) else None,
                Some(full), Some(merged), false, None)]
      case JObj(sub) =>
        [Widget(Header, caption, Some(JNull), None, Some(merged), false, None)]
          + BuildLevel(sub, full, merged)
      case JStr(s) =>
        if s == "" || s == "string" then
          [Widget(TextBox, caption, Some(JStr("")), Some(full), Some(merged), false, None)]
        else []
      case _ => []
  }

  /** The field set of a whole schema document. */
  function BuildForm(schema: Fields): seq<Widget> {
    BuildLevel(schema, "", [])
  }

  // ---------------------------------------------------------------------
  // Properties of the field set
  // ---------------------------------------------------------------------

  /** What each kind of generated widget looks like when first built. */
  predicate WellShaped(w: Widget) {
    && !w.hidden
    && w.otherPopup.None?
    && match w.kind
       case Combo(opts) =>
         w.value == (if |opts| > 0 then Some(opts[0]) else None)
         && w.path.Some? && w.conditions.Some?
       case TextBox => w.value == Some(JStr("")) && w.path.Some? && w.conditions.Some?
       case Header => w.value == Some(JNull) && w.path.None? && w.conditions.Some?
       case GenderPseudo =>
         w.name == "Gender" && w.path == Some(GenderPath) && w.conditions.None?
         && JsTruthyOpt(w.value)
       case Plain => false
  }

  lemma {:induction false} LevelShapes(fs: Fields, path: string, inherited: Fields)
    ensures forall w :: w in BuildLevel(fs, path, inherited) ==> WellShaped(w)
    decreases fs, 1
  {
    EntriesShapes(fs, path, Merge(inherited, LocalConditions(fs)));
  }

  lemma {:induction false} EntriesShapes(es: Fields, path: string, merged: Fields)
    ensures forall w :: w in BuildEntries(es, path, merged) ==> WellShaped(w)
    decreases es, 0
  {
    if |es| > 0 {
      var e := es[0];
      assert e in es && e.1 < e;
      EntryShapes(e.0, e.1, path, merged);
      EntriesShapes(es[1..], path, merged);
    }
  }

  lemma {:induction false} EntryShapes(key: string, value: JVal, path: string, merged: Fields)
    ensures forall w :: w in EntryWidgets(key, value, path, merged) ==> WellShaped(w)
    decreases value, 2
  {
    if !StartsWithChar(key, '_') && value.JObj? {
      LevelShapes(value.fields, FullPath(path, key), merged);
    }
  }

  /** Every generated widget is in its initial state: a dropdown holds its
      first option, a text box `""`, a header no path and `null`, the
      gender pseudo-field the path `Gender` and no conditions; nothing is
      hidden yet and no host widget is produced. */
  lemma FormShapes(schema: Fields)
    ensures forall w :: w in BuildForm(schema) ==> WellShaped(w)
  {
    LevelShapes(schema, "", []);
  }

  /** Below a non-empty path every path-bearing widget other than the
      gender pseudo-field lies under that path. */
  predicate AllUnder(ws: seq<Widget>, path: string) {
    forall w :: w in ws && w.kind != GenderPseudo && w.path.Some?
      ==> IsPrefix(path + [Sep], w.path.value)
  }

  lemma {:induction false} LevelUnder(fs: Fields, path: string, inherited: Fields)
    requires path != ""
    ensures AllUnder(BuildLevel(fs, path, inherited), path)
    decreases fs, 1
  {
    EntriesUnder(fs, path, Merge(inherited, LocalConditions(fs)));
  }

  lemma {:induction false} EntriesUnder(es: Fields, path: string, merged: Fields)
    requires path != ""
    ensures AllUnder(BuildEntries(es, path, merged), path)
    decreases es, 0
  {
    if |es| > 0 {
      var e := es[0];
      assert e in es && e.1 < e;
      EntryUnder(e.0, e.1, path, merged);
      EntriesUnder(es[1..], path, merged);
    }
  }

  lemma {:induction false} EntryUnder(key: string, value: JVal, path: string, merged: Fields)
    requires path != ""
    ensures AllUnder(EntryWidgets(key, value, path, merged), path)
    decreases value, 2
  {
    var full := FullPath(path, key);
    assert IsPrefix(path + [Sep], full);
    if !StartsWithChar(key, '_') && value.JObj? {
      LevelUnder(value.fields, full, merged);
      forall w | w in BuildLevel(value.fields, full, merged) && w.kind != GenderPseudo && w.path.Some?
        ensures IsPrefix(path + [Sep], w.path.value)
      {
        var p := w.path.value;
        assert IsPrefix(full + [Sep], p);
        assert p[..|path| + 1] == (full + [Sep])[..|path| + 1];
      }
    }
  }

  /** An entry whose value is a nested mapping yields one header with no
      path, carrying the level's conditions, immediately followed by the
      widgets of the nested level, whose paths all lie under `path.key`. */
  lemma NestedEntryLayout(key: string, sub: Fields, path: string, merged: Fields)
    requires !StartsWithChar(key, '_')
    ensures var ws := EntryWidgets(key, JObj(sub), path, merged);
      && |ws| >= 1
      && ws[0].kind == Header && ws[0].path.None? && ws[0].conditions == Some(merged)
      && ws[1..] == BuildLevel(sub, FullPath(path, key), merged)
      && (FullPath(path, key) != "" ==> AllUnder(ws[1..], FullPath(path, key)))
  {
    var ws := EntryWidgets(key, JObj(sub), path, merged);
    if FullPath(path, key) != "" {
      LevelUnder(sub, FullPath(path, key), merged);
    }
  }

  /** The widget an option list, a text sentinel or any other scalar
      produces: a dropdown at `path.key` starting at the first option, a
      text box at `path.key` starting at `""`, or nothing. */
  lemma ScalarEntryLayout(key: string, value: JVal, path: string, merged: Fields)
    requires !StartsWithChar(key, '_') && !value.JObj?
    ensures var ws := EntryWidgets(key, value, path, merged);
      && (value.JArr? ==> (|ws| == 1 && ws[0].kind == Combo(value.items)
            && ws[0].path == Some(FullPath(path, key)) && ws[0].conditions == Some(merged)
            && ws[0].value == (if |value.items| > 0 then Some(value.items[0]) else None)))
      && (value == JStr("") || value == JStr("string") ==> (|ws| == 1 && ws[0].kind == TextBox
            && ws[0].path == Some(FullPath(path, key)) && ws[0].conditions == Some(merged)
            && ws[0].value == Some(JStr(""))))
      && (!value.JArr? && value != JStr("") && value != JStr("string") ==> ws == [])
  {
  }

  /** Keys starting with `_` contribute nothing: the entries may be
      filtered down to the others without changing the result. */
  function Unreserved(es: Fields): (r: Fields)
    ensures forall i :: 0 <= i < |r| ==> !StartsWithChar(r[i].0, '_')
    ensures forall e :: e in r ==> e in es
  {
    if |es| == 0 then []
    else if StartsWithChar(es[0].0, '_') then Unreserved(es[1..])
    else [es[0]] + Unreserved(es[1..])
  }

  lemma {:induction false} UnderscoreKeysIgnored(es: Fields, path: string, merged: Fields)
    ensures BuildEntries(es, path, merged) == BuildEntries(Unreserved(es), path, merged)
  {
    if |es| > 0 {
      UnderscoreKeysIgnored(es[1..], path, merged);
      if !StartsWithChar(es[0].0, '_') {
        assert ([es[0]] + Unreserved(es[1..]))[1..] == Unreserved(es[1..]);
      }
    }
  }

  lemma {:induction false} BuildEntriesAppend(a: Fields, b: Fields, path: string, merged: Fields)
    ensures BuildEntries(a + b, path, merged) == BuildEntries(a, path, merged) + BuildEntries(b, path, merged)
  {
    if |a| > 0 {
      assert (a + b)[0] == a[0];
      assert (a + b)[1..] == a[1..] + b;
      BuildEntriesAppend(a[1..], b, path, merged);
    } else {
      assert a + b == b;
    }
  }

  /** Entry `i` of a level's entries occupies its own contiguous slice
      of the entries' widgets, after the widgets of the entries before it. */
  lemma EntrySlice(es: Fields, i: nat, path: string, merged: Fields)
    requires i < |es|
    ensures var out := BuildEntries(es, path, merged);
      var off := |BuildEntries(es[..i], path, merged)|;
      var own := EntryWidgets(es[i].0, es[i].1, path, merged);
      off + |own| <= |out| && out[off..off + |own|] == own
  {
    assert es == es[..i] + ([es[i]] + es[i + 1..]);
    BuildEntriesAppend(es[..i], [es[i]] + es[i + 1..], path, merged);
    BuildEntriesAppend([es[i]], es[i + 1..], path, merged);
    assert BuildEntries([es[i]], path, merged) == EntryWidgets(es[i].0, es[i].1, path, merged) by {
      assert [es[i]][1..] == [];
    }
  }

  /** The first widget of a producing entry carries the level's conditions. */
  lemma EntryOwnConditions(key: string, value: JVal, path: string, merged: Fields)
    requires |EntryWidgets(key, value, path, merged)| > 0
    ensures EntryWidgets(key, value, path, merged)[0].conditions == Some(merged)
  {
    if value.JObj? {
      NestedEntryLayout(key, value.fields, path, merged);
    } else {
      ScalarEntryLayout(key, value, path, merged);
    }
  }

  /** A level starts with the gender pseudo-field when its `_meta.gender`
      is truthy, and continues with the widgets of its keyed entries. */
  lemma LevelGenderFirst(fs: Fields, path: string, inherited: Fields)
    ensures var out := BuildLevel(fs, path, inherited);
      var g := MetaOf(JObj(fs), "gender");
      && (JsTruthyOpt(g) ==> (|out| >= 1 && out[0] == GenderWidget(g.value)
            && out[1..] == BuildEntries(fs, path, Merge(inherited, LocalConditions(fs)))))
      && (!JsTruthyOpt(g) ==> out == BuildEntries(fs, path, Merge(inherited, LocalConditions(fs))))
  {
  }

  /** Entry `i` of a level occupies its own slice of the level's widgets,
      after the gender pseudo-field and the widgets of the entries before
      it, and the first widget of that slice carries the level's
      conditions. */
  lemma LevelEntrySlice(fs: Fields, path: string, inherited: Fields, i: nat)
    requires i < |fs|
    ensures var out := BuildLevel(fs, path, inherited);
      var merged := Merge(inherited, LocalConditions(fs));
      var off := |GenderWidgets(fs)| + |BuildEntries(fs[..i], path, merged)|;
      var own := EntryWidgets(fs[i].0, fs[i].1, path, merged);
      && off + |own| <= |out| && out[off..off + |own|] == own
      && (|own| > 0 ==> out[off].conditions == Some(merged))
  {
    LevelEntryRange(fs, path, inherited, i);
    LevelEntryHead(fs, path, inherited, i);
  }

  lemma LevelEntryRange(fs: Fields, path: string, inherited: Fields, i: nat)
    requires i < |fs|
    ensures var out := BuildLevel(fs, path, inherited);
      var merged := Merge(inherited, LocalConditions(fs));
      var off := |GenderWidgets(fs)| + |BuildEntries(fs[..i], path, merged)|;
      var own := EntryWidgets(fs[i].0, fs[i].1, path, merged);
      off + |own| <= |out| && out[off..off + |own|] == own
  {
    var merged := Merge(inherited, LocalConditions(fs));
    EntrySlice(fs, i, path, merged);
    SliceAfter(BuildLevel(fs, path, inherited), GenderWidgets(fs), BuildEntries(fs, path, merged),
               |BuildEntries(fs[..i], path, merged)|, EntryWidgets(fs[i].0, fs[i].1, path, merged));
  }

  lemma LevelEntryHead(fs: Fields, path: string, inherited: Fields, i: nat)
    requires i < |fs|
    ensures var out := BuildLevel(fs, path, inherited);
      var merged := Merge(inherited, LocalConditions(fs));
      var off := |GenderWidgets(fs)| + |BuildEntries(fs[..i], path, merged)|;
      var own := EntryWidgets(fs[i].0, fs[i].1, path, merged);
      |own| > 0 ==> off < |out| && out[off].conditions == Some(merged)
  {
    var merged := Merge(inherited, LocalConditions(fs));
    var gw := GenderWidgets(fs);
    var es := BuildEntries(fs, path, merged);
    var out := BuildLevel(fs, path, inherited);
    assert out == gw + es;
    EntrySlice(fs, i, path, merged);
    var off := |BuildEntries(fs[..i], path, merged)|;
    var own := EntryWidgets(fs[i].0, fs[i].1, path, merged);
    ShiftSlice(gw, es, off, own);
    if |own| > 0 {
      EntryOwnConditions(fs[i].0, fs[i].1, path, merged);
      assert own[0].conditions == Some(merged);
      SliceHead(out, |gw| + off, |gw| + off + |own|);
      assert out[|gw| + off] == own[0];
    }
  }

  lemma SliceHead<T>(s: seq<T>, a: nat, b: nat)
    requires a < b <= |s|
    ensures s[a..b][0] == s[a]
  {
  }

  lemma SliceAfter<T>(out: seq<T>, g: seq<T>, e: seq<T>, a: nat, own: seq<T>)
    requires out == g + e && a + |own| <= |e| && e[a..a + |own|] == own
    ensures |g| + a + |own| <= |out| && out[|g| + a..|g| + a + |own|] == own
  {
    ShiftSlice(g, e, a, own);
  }

  lemma ShiftSlice<T>(g: seq<T>, e: seq<T>, a: nat, own: seq<T>)
    requires a + |own| <= |e| && e[a..a + |own|] == own
    ensures |g| + a + |own| <= |g + e| && (g + e)[|g| + a..|g| + a + |own|] == own
  {
    assert (g + e)[|g| + a..|g| + a + |own|] == e[a..a + |own|];
  }

  /** A level's conditions are the inherited ones overridden key by key
      by the level's own `_conditions`. */
  lemma LevelConditions(fs: Fields, inherited: Fields, k: string)
    requires UniqueKeys(LocalConditions(fs))
    ensures Get(Merge(inherited, LocalConditions(fs)), k)
      == if HasKey(LocalConditions(fs), k) then Get(LocalConditions(fs), k) else Get(inherited, k)
  {
    MergeGet(inherited, LocalConditions(fs), k);
  }
}
