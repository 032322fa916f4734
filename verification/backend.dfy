/** The Python node functions of `nodes.py` that build and combine prompt
    variables. Python values are JSON values: a dict is a `JObj`, `None`
    is `JNull`, a tuple is a `JTuple`. A node function returns a one-tuple;
    the model returns the tuple's single element. Dict keys are strings in
    the model, so a variable's `name` must be a string wherever it becomes
    a key. */
module Backend {
  import opened Wrappers
  import opened Json
  import opened Rebuild

  // ---------------------------------------------------------------------
  // Prompt variables
  // ---------------------------------------------------------------------

  /** `is_valid_prompt_var(v)`: a dict with `name` and `value` keys whose
      value is not `None`. */
  predicate IsValidPromptVar(v: JVal) {
    v.JObj? && HasKey(v.fields, "name") && HasKey(v.fields, "value") && Get(v.fields, "value") != Some(JNull)
  }

  /** `name is None or name == ""`. */
  predicate IsBlankName(name: JVal) {
    name == JNull || name == JStr("")
  }

  /** The `{"name": name, "value": value}` dict. */
  function PromptVar(name: JVal, value: JVal): JVal {
    JObj([("name", name), ("value", value)])
  }

  /** `DragosVariableNode.get_text(var_name, text)`. */
  function GetText(varName: JVal, text: JVal): (r: JVal)
    ensures IsBlankName(varName) ==> r == JNull
    ensures !IsBlankName(varName) ==>
      r.JObj? && Get(r.fields, "name") == Some(varName) && Get(r.fields, "value") == Some(text)
  {
    if IsBlankName(varName) then JNull else PromptVar(varName, text)
  }

  /** A variable node's output is accepted by `is_valid_prompt_var`
      exactly when its name is set and its text is not `None`. */
  lemma GetTextValid(varName: JVal, text: JVal)
    ensures IsValidPromptVar(GetText(varName, text)) <==> !IsBlankName(varName) && text != JNull
  {
    if !IsBlankName(varName) {
      var fs := GetText(varName, text).fields;
      assert fs[1..] == [("value", text)];
      assert Get(fs, "value") == Get(fs[1..], "value");
    }
  }

  /** The variable's name is a string, so it can be a dict key. */
  predicate HasStringName(v: JVal) {
    v.JObj? && Get(v.fields, "name").Some? && Get(v.fields, "name").value.JStr?
  }

  /** Every valid variable among `vs` has a string name. */
  predicate ValidNamesAreStrings(vs: seq<JVal>) {
    forall i :: 0 <= i < |vs| && IsValidPromptVar(vs[i]) ==> HasStringName(vs[i])
  }

  /** The `(name, value)` pairs of the valid variables, in order. */
  function ValidEntries(vs: seq<JVal>): (r: Fields)
    requires ValidNamesAreStrings(vs)
    ensures |r| == 0 <==> forall i :: 0 <= i < |vs| ==> !IsValidPromptVar(vs[i])
    decreases |vs|
  {
    if |vs| == 0 then []
    else
      var prev := ValidEntries(vs[..|vs| - 1]);
      var v := vs[|vs| - 1];
      if IsValidPromptVar(v) then prev + [(Get(v.fields, "name").value.str, Get(v.fields, "value").value)]
      else prev
  }

  /** Input `i` is a valid variable named `k`. */
  predicate ValidNamed(vs: seq<JVal>, i: int, k: string)
    requires 0 <= i < |vs|
  {
    IsValidPromptVar(vs[i]) && Get(vs[i].fields, "name") == Some(JStr(k))
  }

  /** Input `i` is the last valid variable named `k`. */
  predicate LastValidNamed(vs: seq<JVal>, k: string, i: int) {
    && 0 <= i < |vs| && ValidNamed(vs, i, k)
    && forall j :: i < j < |vs| ==> !ValidNamed(vs, j, k)
  }

  /** The `value` of a valid variable. */
  function VarValue(v: JVal): JVal
    requires IsValidPromptVar(v)
  {
    Get(v.fields, "value").value
  }

  lemma InitNamesAreStrings(vs: seq<JVal>)
    requires |vs| > 0 && ValidNamesAreStrings(vs)
    ensures ValidNamesAreStrings(vs[..|vs| - 1])
  {
    var init := vs[..|vs| - 1];
    forall i | 0 <= i < |init| && IsValidPromptVar(init[i])
      ensures HasStringName(init[i])
    {
      assert init[i] == vs[i];
    }
  }

  /** An entry named `k` is produced exactly when some input is a valid
      variable named `k`. */
  lemma {:induction false} ValidEntriesKeyed(vs: seq<JVal>, k: string)
    requires ValidNamesAreStrings(vs)
    ensures LastWith(ValidEntries(vs), k).Some? <==> exists i :: 0 <= i < |vs| && ValidNamed(vs, i, k)
    decreases |vs|
  {
    if |vs| > 0 {
      var init := vs[..|vs| - 1];
      InitNamesAreStrings(vs);
      ValidEntriesKeyed(init, k);
      var v := vs[|vs| - 1];
      if IsValidPromptVar(v) {
        LastWithSnoc(ValidEntries(init), (Get(v.fields, "name").value.str, Get(v.fields, "value").value), k);
        if Get(v.fields, "name").value.str == k {
          assert ValidNamed(vs, |vs| - 1, k);
        }
      }
      if exists i :: 0 <= i < |vs| && ValidNamed(vs, i, k) {
        var i :| 0 <= i < |vs| && ValidNamed(vs, i, k);
        if i < |vs| - 1 {
          assert init[i] == vs[i];
          assert ValidNamed(init, i, k);
        }
      }
      if exists i :: 0 <= i < |init| && ValidNamed(init, i, k) {
        var i :| 0 <= i < |init| && ValidNamed(init, i, k);
        assert init[i] == vs[i];
        assert ValidNamed(vs, i, k);
      }
    }
  }

  /** The last entry named `k` carries the value of the last valid
      variable named `k`. */
  lemma {:induction false} ValidEntriesLast(vs: seq<JVal>, k: string, i: int)
    requires ValidNamesAreStrings(vs) && LastValidNamed(vs, k, i)
    ensures LastWith(ValidEntries(vs), k) == Some(VarValue(vs[i]))
    decreases |vs|
  {
    var init := vs[..|vs| - 1];
    InitNamesAreStrings(vs);
    var v := vs[|vs| - 1];
    if IsValidPromptVar(v) {
      LastWithSnoc(ValidEntries(init), (Get(v.fields, "name").value.str, Get(v.fields, "value").value), k);
    }
    if i < |vs| - 1 {
      assert !ValidNamed(vs, |vs| - 1, k);
      assert LastValidNamed(init, k, i) by {
        assert init[i] == vs[i];
        forall j | i < j < |init|
          ensures !ValidNamed(init, j, k)
        {
          assert !ValidNamed(vs, j, k);
          assert init[j] == vs[j];
        }
      }
      ValidEntriesLast(init, k, i);
    }
  }

  /** An assignment loop over at least one entry leaves a non-empty dict. */
  lemma AssignNonEmpty(es: Fields)
    ensures |Assign(es)| == 0 <==> |es| == 0
  {
    if |es| > 0 {
      var last := es[|es| - 1];
      assert Get(Assign(es), last.0) == Some(last.1);
    }
  }

  /** `DragosObjectNode.build_object(obj_name, **kwargs)`, with the
      keyword arguments' values in order. */
  function BuildObject(objName: JVal, inputs: seq<JVal>): (r: JVal)
    requires ValidNamesAreStrings(inputs)
    ensures r == JNull <==> IsBlankName(objName) || forall i :: 0 <= i < |inputs| ==> !IsValidPromptVar(inputs[i])
    ensures r != JNull ==> r == PromptVar(objName, JObj(Assign(ValidEntries(inputs))))
  {
    if IsBlankName(objName) then JNull
    else
      var combined := Assign(ValidEntries(inputs));
      AssignNonEmpty(ValidEntries(inputs));
      if |combined| == 0 then JNull else PromptVar(objName, JObj(combined))
  }

  /** The object's mapping: its keys are the valid names in first-seen
      order, and each holds the value of the last valid input with that
      name. */
  lemma BuildObjectContents(objName: JVal, inputs: seq<JVal>)
    requires ValidNamesAreStrings(inputs) && BuildObject(objName, inputs) != JNull
    ensures var combined := JObj(Assign(ValidEntries(inputs)));
      var es := ValidEntries(inputs);
      && UniqueKeys(combined.fields)
      && KeysOf(combined.fields) == Dedup(KeysOf(es))
      && forall k :: Get(combined.fields, k) == LastWith(es, k)
  {
    AssignSpec(ValidEntries(inputs));
  }

  /** The object's mapping has a key `k` exactly when some input is a valid
      variable named `k`, and it holds the value of the last such input. */
  lemma BuildObjectNamed(objName: JVal, inputs: seq<JVal>, k: string)
    requires ValidNamesAreStrings(inputs) && BuildObject(objName, inputs) != JNull
    ensures var r := BuildObject(objName, inputs);
      && r.JObj? && Get(r.fields, "value").Some? && Get(r.fields, "value").value.JObj?
      && var combined := Get(r.fields, "value").value.fields;
      && (HasKey(combined, k) <==> exists i :: 0 <= i < |inputs| && ValidNamed(inputs, i, k))
      && forall i :: LastValidNamed(inputs, k, i) ==> Get(combined, k) == Some(VarValue(inputs[i]))
  {
    var fs := BuildObject(objName, inputs).fields;
    assert fs[1..] == [("value", JObj(Assign(ValidEntries(inputs))))];
    assert Get(fs, "value") == Some(JObj(Assign(ValidEntries(inputs))));
    BuildObjectContents(objName, inputs);
    ValidEntriesKeyed(inputs, k);
    forall i | LastValidNamed(inputs, k, i)
      ensures Get(Assign(ValidEntries(inputs)), k) == Some(VarValue(inputs[i]))
    {
      ValidEntriesLast(inputs, k, i);
    }
  }

  // ---------------------------------------------------------------------
  // Scene compiler
  // ---------------------------------------------------------------------

  /** `_unwrap_prompt_var(v)`: strips one-element tuples until none is left. */
  function Unwrap(v: JVal): (r: JVal)
    ensures !(r.JTuple? && |r.elems| == 1)
    decreases v
  {
    if v.JTuple? && |v.elems| == 1 then Unwrap(v.elems[0]) else v
  }

  /** `v` wrapped in `n` one-element tuples. */
  function Wrap(v: JVal, n: nat): JVal {
    if n == 0 then v else JTuple([Wrap(v, n - 1)])
  }

  /** Unwrapping is idempotent, undoes any number of wraps, and leaves a
      value that is not a one-tuple alone. */
  lemma {:induction false} UnwrapSpec(v: JVal, n: nat)
    ensures Unwrap(Unwrap(v)) == Unwrap(v)
    ensures Unwrap(Wrap(v, n)) == Unwrap(v)
    ensures !(v.JTuple? && |v.elems| == 1) ==> Unwrap(v) == v
    decreases n
  {
    if n > 0 {
      UnwrapSpec(v, n - 1);
      assert Wrap(v, n).elems[0] == Wrap(v, n - 1);
    }
  }

  /** The unwrapped value is a dict with `name` and `value` keys. */
  predicate IsSceneEntry(v: JVal) {
    var u := Unwrap(v);
    u.JObj? && HasKey(u.fields, "name") && HasKey(u.fields, "value")
  }

  /** Every input that becomes a scene entry has a string name. */
  predicate EntryNamesAreStrings(kwargs: Fields) {
    forall i :: 0 <= i < |kwargs| && IsSceneEntry(kwargs[i].1) ==> HasStringName(Unwrap(kwargs[i].1))
  }

  /** The `(name, value)` pairs of the scene entries, in argument order. */
  function SceneEntries(kwargs: Fields): (r: Fields)
    requires EntryNamesAreStrings(kwargs)
    ensures |r| <= |kwargs|
    decreases |kwargs|
  {
    if |kwargs| == 0 then []
    else
      var prev := SceneEntries(kwargs[..|kwargs| - 1]);
      var u := Unwrap(kwargs[|kwargs| - 1].1);
      if IsSceneEntry(kwargs[|kwargs| - 1].1) then prev + [(Get(u.fields, "name").value.str, Get(u.fields, "value").value)]
      else prev
  }

  /** Argument `i` becomes a scene entry named `k`. */
  predicate EntryNamed(kwargs: Fields, i: int, k: string)
    requires 0 <= i < |kwargs|
  {
    IsSceneEntry(kwargs[i].1) && Get(Unwrap(kwargs[i].1).fields, "name") == Some(JStr(k))
  }

  /** Argument `i` is the last among the first `n` that becomes an entry
      named `k`. */
  predicate LastNamed(kwargs: Fields, n: nat, k: string, i: int)
    requires n <= |kwargs|
  {
    && 0 <= i < n && EntryNamed(kwargs, i, k)
    && forall j :: i < j < n ==> !EntryNamed(kwargs, j, k)
  }

  /** The value an entry carries. */
  function EntryValue(v: JVal): JVal
    requires IsSceneEntry(v)
  {
    Get(Unwrap(v).fields, "value").value
  }

  /** An entry named `k` is produced exactly when some argument becomes an
      entry with that name. */
  lemma {:induction false} SceneEntriesKeyed(kwargs: Fields, k: string)
    requires EntryNamesAreStrings(kwargs)
    ensures LastWith(SceneEntries(kwargs), k).Some?
      <==> exists i :: 0 <= i < |kwargs| && EntryNamed(kwargs, i, k)
    decreases |kwargs|
  {
    if |kwargs| > 0 {
      var init := kwargs[..|kwargs| - 1];
      assert EntryNamesAreStrings(init) by {
        forall i | 0 <= i < |init| && IsSceneEntry(init[i].1)
          ensures HasStringName(Unwrap(init[i].1))
        {
          assert init[i] == kwargs[i];
        }
      }
      SceneEntriesKeyed(init, k);
      var prev := SceneEntries(init);
      var last := kwargs[|kwargs| - 1].1;
      if IsSceneEntry(last) {
        var u := Unwrap(last);
        LastWithSnoc(prev, (Get(u.fields, "name").value.str, Get(u.fields, "value").value), k);
        if Get(u.fields, "name").value.str == k {
          assert EntryNamed(kwargs, |kwargs| - 1, k);
        }
      }
      if exists i :: 0 <= i < |kwargs| && EntryNamed(kwargs, i, k) {
        var i :| 0 <= i < |kwargs| && EntryNamed(kwargs, i, k);
        if i < |kwargs| - 1 {
          assert init[i] == kwargs[i];
          assert EntryNamed(init, i, k);
        }
      }
      if exists i :: 0 <= i < |init| && EntryNamed(init, i, k) {
        var i :| 0 <= i < |init| && EntryNamed(init, i, k);
        assert init[i] == kwargs[i];
        assert EntryNamed(kwargs, i, k);
      }
    }
  }

  /** The last entry named `k` carries the value of the last argument that
      becomes an entry with that name. */
  lemma {:induction false} SceneEntriesLast(kwargs: Fields, k: string, i: int)
    requires EntryNamesAreStrings(kwargs) && LastNamed(kwargs, |kwargs|, k, i)
    ensures LastWith(SceneEntries(kwargs), k) == Some(EntryValue(kwargs[i].1))
    decreases |kwargs|
  {
    var init := kwargs[..|kwargs| - 1];
    assert EntryNamesAreStrings(init) by {
      forall j | 0 <= j < |init| && IsSceneEntry(init[j].1)
        ensures HasStringName(Unwrap(init[j].1))
      {
        assert init[j] == kwargs[j];
      }
    }
    var prev := SceneEntries(init);
    var last := kwargs[|kwargs| - 1].1;
    if IsSceneEntry(last) {
      var u := Unwrap(last);
      LastWithSnoc(prev, (Get(u.fields, "name").value.str, Get(u.fields, "value").value), k);
    }
    if i < |kwargs| - 1 {
      assert !EntryNamed(kwargs, |kwargs| - 1, k);
      assert LastNamed(init, |init|, k, i) by {
        assert init[i] == kwargs[i];
        forall j | i < j < |init|
          ensures !EntryNamed(init, j, k)
        {
          assert !EntryNamed(kwargs, j, k);
          assert init[j] == kwargs[j];
        }
      }
      SceneEntriesLast(init, k, i);
    }
  }

  /** What `compile_json` returns, as a document rather than text: the
      hidden `output_json_string` verbatim, or the compiled scene. */
  datatype Compiled = Verbatim(text: JVal) | SceneDoc(scene: Fields)

  const HiddenKey: string := "output_json_string"

  /** `DragosSceneCompiler.compile_json(**kwargs)`: a truthy hidden
      string is returned as it is; otherwise every input that unwraps to
      a dict with `name` and `value` is assigned into the scene, later
      inputs winning, `None` values included. */
  function CompileJson(kwargs: Fields): (r: Compiled)
    requires EntryNamesAreStrings(kwargs)
    ensures r.Verbatim? <==> Get(kwargs, HiddenKey).Some? && PyTruthy(Get(kwargs, HiddenKey).value)
    ensures r.Verbatim? ==> Some(r.text) == Get(kwargs, HiddenKey)
    ensures r.SceneDoc? ==> UniqueKeys(r.scene)
  {
    var hidden := Get(kwargs, HiddenKey);
    if hidden.Some? && PyTruthy(hidden.value) then Verbatim(hidden.value)
    else SceneDoc(Assign(SceneEntries(kwargs)))
  }

  /** The compiled scene holds, under each name, the value of the last
      input carrying that name, and its keys are the names in first-seen
      order. */
  lemma CompileJsonScene(kwargs: Fields)
    requires EntryNamesAreStrings(kwargs) && CompileJson(kwargs).SceneDoc?
    ensures var scene := CompileJson(kwargs).scene;
      && KeysOf(scene) == Dedup(KeysOf(SceneEntries(kwargs)))
      && forall k :: Get(scene, k) == LastWith(SceneEntries(kwargs), k)
  {
    AssignSpec(SceneEntries(kwargs));
  }

  /** The compiled scene has a key `k` exactly when some argument unwraps
      to an entry named `k`, and it holds the value of the last such
      argument. */
  lemma CompileJsonNamed(kwargs: Fields, k: string)
    requires EntryNamesAreStrings(kwargs) && CompileJson(kwargs).SceneDoc?
    ensures var scene := CompileJson(kwargs).scene;
      && (HasKey(scene, k) <==> exists i :: 0 <= i < |kwargs| && EntryNamed(kwargs, i, k))
      && forall i :: LastNamed(kwargs, |kwargs|, k, i) ==> Get(scene, k) == Some(EntryValue(kwargs[i].1))
  {
    var scene := CompileJson(kwargs).scene;
    CompileJsonScene(kwargs);
    SceneEntriesKeyed(kwargs, k);
    forall i | LastNamed(kwargs, |kwargs|, k, i)
      ensures Get(scene, k) == Some(EntryValue(kwargs[i].1))
    {
      SceneEntriesLast(kwargs, k, i);
    }
  }

  /** A variable node's output, however deeply wrapped, is a scene entry
      exactly when its name is set, and then it carries its text even
      when the text is `None`. */
  lemma GetTextIsEntry(varName: JVal, text: JVal, n: nat)
    ensures IsSceneEntry(Wrap(GetText(varName, text), n)) <==> !IsBlankName(varName)
  {
    UnwrapSpec(GetText(varName, text), n);
    if !IsBlankName(varName) {
      var fs := GetText(varName, text).fields;
      assert fs[1..] == [("value", text)];
      assert HasKey(fs, "value") by {
        assert fs[1].0 == "value";
      }
    }
  }

  // ---------------------------------------------------------------------
  // Structured builder
  // ---------------------------------------------------------------------

  /** The hidden `json_data` text: empty (or `None`), not valid JSON, or
      the document it encodes. */
  datatype JsonText = Empty | Malformed | Encodes(doc: JVal)

  /** The parsed document, `{}` for empty or malformed text. */
  function ParseOrEmpty(jsonData: JsonText): (r: JVal)
    ensures jsonData.Encodes? ==> r == jsonData.doc
    ensures !jsonData.Encodes? ==> r == JObj([])
  {
    if jsonData.Encodes? then jsonData.doc else JObj([])
  }

  /** `DragosStructuredBuilderNode.build(category, json_data)`; `None`
      where Python raises because the document or its `_meta` is not a
      dict. */
  function Build(category: JVal, jsonData: JsonText): (r: Option<JVal>)
    ensures r.None? <==> (!ParseOrEmpty(jsonData).JObj?
                          || !Get(ParseOrEmpty(jsonData).fields, "_meta").GetOr(JObj([])).JObj?)
    ensures !jsonData.Encodes? ==> r == Some(JObj([("name", category), ("value", JObj([])), ("_meta", JObj([]))]))
    ensures r.Some? ==>
      var doc := ParseOrEmpty(jsonData);
      var meta := Get(doc.fields, "_meta").GetOr(JObj([]));
      && r.value.JObj?
      && Get(r.value.fields, "name") == Some(Get(meta.fields, "category").GetOr(category))
      && Get(r.value.fields, "value") == Some(Get(doc.fields, "data").GetOr(JObj([])))
  {
    var parsed := ParseOrEmpty(jsonData);
    if !parsed.JObj? then None
    else
      var meta := Get(parsed.fields, "_meta").GetOr(JObj([]));
      var data := Get(parsed.fields, "data").GetOr(JObj([]));
      if !meta.JObj? then None
      else Some(JObj([("name", Get(meta.fields, "category").GetOr(category)), ("value", data), ("_meta", meta)]))
  }

  /** The document the browser stores is read back with the derived
      category as the variable's name and the nested fields as its
      value, whatever category the dropdown shows. */
  lemma BuildReadsStoredDocument(category: JVal, m: Meta, data: JVal)
    ensures Build(category, Encodes(Final(m, data)))
      == Some(JObj([("name", JStr(m.category)), ("value", data), ("_meta", MetaDoc(m))]))
  {
    var fs := Final(m, data).fields;
    assert fs[0].0 != "data" by {
      assert fs[0].0[0] == '_';
    }
    assert Get(fs, "_meta") == Some(MetaDoc(m));
    assert fs[1..] == [("data", data)];
    assert Get(fs, "data") == Some(data);
    assert Get(MetaDoc(m).fields, "category") == Some(JStr(m.category));
  }
}
