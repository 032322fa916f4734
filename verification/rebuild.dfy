/** One rebuild of a structured-builder node: keep the `category` widget,
    build the schema's fields, restore the saved values, evaluate the
    conditions, and store `{_meta, data}` in the hidden `json_data`
    widget. The schema is the result of `loadSchema` (a parameter). */
module Rebuild {
  import opened Wrappers
  import opened Text
  import opened Json
  import opened Widgets
  import opened SchemaForm
  import opened Conditions
  import opened Nested

  /** The three lower-cased strings of the stored `_meta`. */
  datatype Meta = Meta(category: string, extension: string, schema: string)

  /** `a || d` where `a` may be undefined. */
  function OrElse(a: Option<JVal>, d: JVal): (r: JVal)
    ensures JsTruthy(r) ==> r == d || a == Some(r)
    ensures JsTruthyOpt(a) ==> r == a.value
    ensures !JsTruthyOpt(a) ==> r == d
  {
    if JsTruthyOpt(a) then a.value else d
  }

  /** `a || b` where both may be undefined. */
  function Or(a: Option<JVal>, b: Option<JVal>): (r: Option<JVal>)
    ensures JsTruthyOpt(r) <==> JsTruthyOpt(a) || JsTruthyOpt(b)
  {
    if JsTruthyOpt(a) then a else b
  }

  /** `String(x).toLowerCase()`. */
  function LowerString(v: JVal): string {
    LowerStr(JsString(v))
  }

  /** The `_meta` of the final document, from the schema's own `_meta`
      (read only when it is a mapping) and the category widget's value. */
  function DeriveMeta(schema: Fields, category: Option<JVal>): Meta {
    var doc := JObj(schema);
    var shown := Or(MetaOf(doc, "display_name"), Or(MetaOf(doc, "displayName"), category));
    Meta(LowerString(OrElse(shown, JStr(""))),
         LowerString(OrElse(MetaOf(doc, "extension"), JStr(""))),
         LowerString(OrElse(category, JStr(""))))
  }

  /** Every stored `_meta` string is lower case; without display names the
      category is the schema name, and an absent category gives `""`. */
  lemma DeriveMetaSpec(schema: Fields, category: Option<JVal>)
    ensures var m := DeriveMeta(schema, category);
      var dn := MetaOf(JObj(schema), "display_name");
      var dn2 := MetaOf(JObj(schema), "displayName");
      && HasNoUpper(m.category) && HasNoUpper(m.extension) && HasNoUpper(m.schema)
      && (!JsTruthyOpt(dn) && !JsTruthyOpt(dn2) ==> m.category == m.schema)
      && (!JsTruthyOpt(category) ==> m.schema == "")
      && (JsTruthyOpt(dn) ==> m.category == LowerString(dn.value))
  {
    var m := DeriveMeta(schema, category);
    LowerStrIsLower(JsString(OrElse(Or(MetaOf(JObj(schema), "display_name"),
      Or(MetaOf(JObj(schema), "displayName"), category)), JStr(""))));
    LowerStrIsLower(JsString(OrElse(MetaOf(JObj(schema), "extension"), JStr(""))));
    LowerStrIsLower(JsString(OrElse(category, JStr(""))));
  }

  function MetaDoc(m: Meta): JVal {
    JObj([("category", JStr(m.category)), ("extension", JStr(m.extension)), ("schema", JStr(m.schema))])
  }

  /** `{ _meta: …, data: … }`, the document stored in `json_data`. */
  function Final(m: Meta, data: JVal): JVal {
    JObj([("_meta", MetaDoc(m)), ("data", data)])
  }

  /** Reading the stored document back gives the data it was built from. */
  lemma SavedDataOfFinal(m: Meta, data: JVal)
    requires JsTruthy(data)
    ensures SavedData(Some(Final(m, data))) == data
  {
    var fs := Final(m, data).fields;
    assert fs[0].0 != "data" by {
      assert fs[0].0[0] == '_';
    }
    assert fs[1..] == [("data", data)];
    assert Get(fs[1..], "data") == Some(data);
    assert Get(fs, "data") == Some(data);
    assert JsTruthyOpt(Get(fs, "data"));
  }

  /** `node.widgets.filter(w => w.name === "category")`. */
  function KeepCategory(ws: seq<Widget>): (r: seq<Widget>)
    ensures forall i :: 0 <= i < |r| ==> r[i].name == "category" && r[i] in ws
    ensures forall w :: w in ws && w.name == "category" ==> w in r
  {
    if |ws| == 0 then []
    else (if ws[0].name == "category" then [ws[0]] else []) + KeepCategory(ws[1..])
  }

  /** The index of the first widget named `name`. */
  function IndexNamed(ws: seq<Widget>, name: string): (r: Option<nat>)
    ensures r.Some? ==> r.value < |ws| && ws[r.value].name == name
    ensures r.Some? ==> forall i :: 0 <= i < r.value ==> ws[i].name != name
    ensures r.None? ==> forall i :: 0 <= i < |ws| ==> ws[i].name != name
  {
    if |ws| == 0 then None
    else if ws[0].name == name then Some(0)
    else
      var t := IndexNamed(ws[1..], name);
      if t.None? then None else Some(t.value + 1)
  }

  /** The hidden widget created to hold the stored document (its text is
      modelled as the document itself). */
  function JsonWidget(doc: JVal): Widget {
    Widget(Plain, "json_data", Some(doc), None, None, true, None)
  }

  /** Store the document in the first `json_data` widget, creating a hidden
      one at the end when there is none. */
  function StoreJson(ws: seq<Widget>, doc: JVal): (r: seq<Widget>)
    ensures FindByName(r, "json_data").Some? && FindByName(r, "json_data").value.value == Some(doc)
    ensures |r| == |ws| || r == ws + [JsonWidget(doc)]
    ensures forall i :: 0 <= i < |ws| && ws[i].name != "json_data" ==> r[i] == ws[i]
  {
    var j := IndexNamed(ws, "json_data");
    if j.None? then
      var r := ws + [JsonWidget(doc)];
      FindAfterNone(ws, JsonWidget(doc));
      r
    else
      var r := ws[j.value := ws[j.value].(value := Some(doc))];
      FindFirstAt(r, "json_data", j.value);
      r
  }

  lemma FindAfterNone(ws: seq<Widget>, w: Widget)
    requires forall i :: 0 <= i < |ws| ==> ws[i].name != w.name
    ensures FindByName(ws + [w], w.name) == Some(w)
  {
    if |ws| > 0 {
      assert (ws + [w])[1..] == ws[1..] + [w];
      FindAfterNone(ws[1..], w);
    }
  }

  lemma FindFirstAt(ws: seq<Widget>, name: string, j: nat)
    requires j < |ws| && ws[j].name == name
    requires forall i :: 0 <= i < j ==> ws[i].name != name
    ensures FindByName(ws, name) == Some(ws[j])
  {
    if j > 0 {
      FindFirstAt(ws[1..], name, j - 1);
    }
  }

  datatype Outcome =
    | Unchanged                                  // no category widget, or no schema
    | Aborted(partial: seq<Widget>)              // TypeError in the restore loop
    | Rebuilt(widgets: seq<Widget>, final: JVal)

  /** The fields a rebuild restores onto: the kept category widgets then
      the schema's field set. */
  function Fresh(ws: seq<Widget>, schema: Fields): seq<Widget> {
    KeepCategory(ws) + BuildForm(schema)
  }

  /** `rebuild(node)`: `schema` is what `loadSchema` returned for the
      category (`None` on a failed load) and `stored` the parsed
      `properties.json_data` (`None` when absent or malformed). When a
      walk throws, the node is left with the fresh field list, restored up
      to the throwing field; conditions are not evaluated and neither
      `json_data` nor the properties are rewritten. */
  function RebuildNode(ws: seq<Widget>, schema: Option<Fields>, stored: Option<JVal>): (r: Outcome)
    ensures r.Unchanged? <==> FindByName(ws, "category").None? || schema.None?
    ensures r.Aborted? <==> !r.Unchanged? && Restore(Fresh(ws, schema.value), SavedData(stored)).None?
    ensures r.Aborted? ==>
      var built := Fresh(ws, schema.value);
      var j := FirstThrow(built, SavedData(stored));
      && j.Some? && |r.partial| == |built|
      && RestoreWidget(built[j.value], SavedData(stored)).None?
      && (forall i :: 0 <= i < j.value ==> RestoreWidget(built[i], SavedData(stored)) == Some(r.partial[i]))
      && (forall i :: j.value <= i < |built| ==> r.partial[i] == built[i])
  {
    var cat := FindByName(ws, "category");
    if cat.None? || schema.None? then Unchanged
    else
      var built := Fresh(ws, schema.value);
      var restored := Restore(built, SavedData(stored));
      if restored.None? then
        var j := FirstThrow(built, SavedData(stored)).value;
        Aborted(RestoreUntil(built, SavedData(stored), j))
      else
        var evaluated := Evaluate(restored.value);
        var final := Final(DeriveMeta(schema.value, cat.value.value), BuildNestedObject(evaluated));
        Rebuilt(StoreJson(evaluated, final), final)
  }

  lemma NestAppendInert(ws: seq<Widget>, w: Widget)
    requires !HasPath(w)
    ensures BuildNestedObject(ws + [w]) == BuildNestedObject(ws)
  {
    assert (ws + [w])[..|ws|] == ws;
  }

  /** After a rebuild the node's widgets serialise to the stored data: the
      `json_data` widget holds `{_meta, data}` and `data` is what the
      widgets build (when no schema field is itself named `json_data`). */
  lemma RebuildStoresItsWidgets(ws: seq<Widget>, schema: Option<Fields>, stored: Option<JVal>)
    requires RebuildNode(ws, schema, stored).Rebuilt?
    requires forall i :: 0 <= i < |Fresh(ws, schema.value)| ==> Fresh(ws, schema.value)[i].name != "json_data"
    ensures var r := RebuildNode(ws, schema, stored);
      && FindByName(r.widgets, "json_data").value.value == Some(r.final)
      && r.final == Final(DeriveMeta(schema.value, FindByName(ws, "category").value.value),
                          BuildNestedObject(r.widgets))
  {
    var restored := Restore(Fresh(ws, schema.value), SavedData(stored)).value;
    var evaluated := Evaluate(restored);
    EvaluateSpec(restored);
    var r := RebuildNode(ws, schema, stored);
    assert forall i :: 0 <= i < |evaluated| ==> evaluated[i].name != "json_data";
    assert r.widgets == evaluated + [JsonWidget(r.final)];
    NestAppendInert(evaluated, JsonWidget(r.final));
  }

  /** A rebuild whose restore succeeds keeps each restored value outside
      the `json_data` widget. */
  lemma RebuildKeepsRestored(ws: seq<Widget>, schema: Fields, stored: Option<JVal>, i: nat)
    requires FindByName(ws, "category").Some?
    requires Restore(Fresh(ws, schema), SavedData(stored)).Some?
    requires i < |Fresh(ws, schema)| && Fresh(ws, schema)[i].name != "json_data"
    ensures RebuildNode(ws, Some(schema), stored).Rebuilt?
    ensures i < |RebuildNode(ws, Some(schema), stored).widgets|
    ensures RebuildNode(ws, Some(schema), stored).widgets[i].value
      == Restore(Fresh(ws, schema), SavedData(stored)).value[i].value
  {
    var restored := Restore(Fresh(ws, schema), SavedData(stored)).value;
    EvaluateSpec(restored);
    RestoreWidgetName(Fresh(ws, schema), SavedData(stored), i);
  }

  lemma RestoreWidgetName(ws: seq<Widget>, saved: JVal, i: nat)
    requires Restore(ws, saved).Some? && i < |ws|
    ensures Restore(ws, saved).value[i].name == ws[i].name
  {
    assert RestoreWidget(ws[i], saved) == Some(Restore(ws, saved).value[i]);
  }

  /** Rebuilding from the document an earlier widget set stored never
      aborts, and every fresh field on an earlier contributing path gets
      that path's last saved value, while one unrelated to every earlier
      path keeps its schema default (for prefix-free earlier paths that no
      fresh path passes through). */
  lemma RebuildRestoresSaved(ws: seq<Widget>, schema: Fields, m: Meta, earlier: seq<Widget>, i: nat)
    requires FindByName(ws, "category").Some?
    requires PrefixFree(earlier, true)
    requires Compatible(earlier, Fresh(ws, schema))
    requires i < |Fresh(ws, schema)| && Fresh(ws, schema)[i].name != "json_data"
    requires HasPath(Fresh(ws, schema)[i])
    ensures var r := RebuildNode(ws, Some(schema), Some(Final(m, BuildNestedObject(earlier))));
      var p := Segments(Fresh(ws, schema)[i]);
      && r.Rebuilt? && i < |r.widgets|
      && (IsContribPath(earlier, true, p) ==> r.widgets[i].value == LastValueAt(earlier, true, p))
      && (UnrelatedToAll(earlier, true, p) ==> r.widgets[i].value == Fresh(ws, schema)[i].value)
  {
    var built := Fresh(ws, schema);
    var doc := BuildNestedObject(earlier);
    SavedDataOfFinal(m, doc);
    RestoreWidgetRoundTrip(earlier, built[i]);
    var restored := Restore(built, doc);
    assert restored.Some? by {
      forall j | 0 <= j < |built| ensures RestoreWidget(built[j], doc).Some? {
        RestoreWidgetRoundTrip(earlier, built[j]);
      }
    }
    assert RestoreWidget(built[i], doc) == Some(restored.value[i]);
    RebuildKeepsRestored(ws, schema, Some(Final(m, doc)), i);
  }
}
