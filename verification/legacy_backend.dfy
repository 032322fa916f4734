/** The superseded copy of the Python nodes in `scene_builder.py`. Its
    `is_valid_prompt_var`, `get_text`, `build_object` and
    `_unwrap_prompt_var` are the same as those of `nodes.py` (the debug
    output aside) and are the `Backend` members; `compile_json` and
    `build` differ and are modelled here. */
module LegacyBackend {
  import opened Wrappers
  import opened Json
  import opened Rebuild
  import opened Backend

  /** `compile_json(**kwargs)` without the hidden-string shortcut: every
      input that unwraps to a dict with `name` and `value` is assigned
      into the scene, later inputs winning. */
  function CompileJson(kwargs: Fields): (r: Fields)
    requires EntryNamesAreStrings(kwargs)
    ensures UniqueKeys(r)
    ensures KeysOf(r) == Dedup(KeysOf(SceneEntries(kwargs)))
    ensures forall k :: Get(r, k) == LastWith(SceneEntries(kwargs), k)
  {
    AssignSpec(SceneEntries(kwargs));
    Assign(SceneEntries(kwargs))
  }

  /** Without a truthy hidden string the two compilers produce the same
      scene; with one, only the current compiler short-cuts. */
  lemma CompilersAgree(kwargs: Fields)
    requires EntryNamesAreStrings(kwargs)
    ensures Backend.CompileJson(kwargs).SceneDoc? ==> Backend.CompileJson(kwargs).scene == CompileJson(kwargs)
    ensures Backend.CompileJson(kwargs).Verbatim? <==>
      Get(kwargs, HiddenKey).Some? && PyTruthy(Get(kwargs, HiddenKey).value)
  {
  }

  /** `build(category, json_data)`: the selected category as the name and
      the whole parsed document as the value, `{}` for empty or malformed
      text. It reads no key, so it never raises. */
  function Build(category: JVal, jsonData: JsonText): (r: JVal)
    ensures r.JObj? && Get(r.fields, "name") == Some(category)
    ensures Get(r.fields, "value") == Some(ParseOrEmpty(jsonData))
  {
    var r := JObj([("name", category), ("value", ParseOrEmpty(jsonData))]);
    assert r.fields[1..] == [("value", ParseOrEmpty(jsonData))];
    r
  }

  /** On the document the browser stores, the old builder passes the
      whole document, `_meta` included, under the dropdown's category,
      while the current builder passes only the nested fields under the
      derived category. */
  lemma BuildersDiffer(category: JVal, m: Meta, data: JVal)
    ensures Get(Build(category, Encodes(Final(m, data))).fields, "value") == Some(Final(m, data))
    ensures Backend.Build(category, Encodes(Final(m, data))).Some?
    ensures Get(Backend.Build(category, Encodes(Final(m, data))).value.fields, "value") == Some(data)
    ensures Final(m, data) != data
  {
    BuildReadsStoredDocument(category, m, data);
    var r := Backend.Build(category, Encodes(Final(m, data))).value;
    assert r.fields[1..] == [("value", data), ("_meta", MetaDoc(m))];
    assert Get(r.fields, "value") == Get(r.fields[1..], "value");
    assert Final(m, data).fields[1].1 == data;
  }
}
