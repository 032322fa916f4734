/** The widgets a node carries. The structured builder's generated fields
    (dropdowns, text boxes, section headers and the gender pseudo-field)
    and the host's own widgets (`category`, `var_name`, `obj_name`, `text`,
    `json_data`) share one record, as they share one array in the source. */
module Widgets {
  import opened Wrappers
  import opened Text
  import opened Json

  datatype Kind =
    | Combo(options: seq<JVal>)   // dropdown over the schema's option list
    | TextBox                     // free-text field
    | Header                      // section boundary for a nested schema object
    | GenderPseudo                // value-only field carrying `_meta.gender`
    | Plain                       // a widget the host created

  /** `value == None` is JavaScript `undefined`; `path == None` is a widget
      without `dragosPath`; `conditions == None` is one without
      `dragosConditions`; `otherPopup` is `_otherPopupValue`. */
  datatype Widget = Widget(
    kind: Kind,
    name: string,
    value: Option<JVal>,
    path: Option<string>,
    conditions: Option<Fields>,
    hidden: bool,
    otherPopup: Option<JVal>)

  /** The separator of dotted field paths. */
  const Sep: char := '.'

  /** `w.dragosPath` is truthy: present and not the empty string. */
  predicate HasPath(w: Widget) {
    w.path.Some? && w.path.value != ""
  }

  /** `w.dragosPath.split(".")`. */
  function Segments(w: Widget): (r: seq<string>)
    requires HasPath(w)
    ensures |r| >= 1
  {
    Split(w.path.value, Sep)
  }

  /** The path of key `key` below `parent`: `parent.key`, or `key` at the
      root (an empty parent is falsy in the source). */
  function FullPath(parent: string, key: string): string {
    if parent != "" then parent + [Sep] + key else key
  }

  /** A host widget with a name and a value and nothing else. */
  function PlainWidget(name: string, value: Option<JVal>): Widget {
    Widget(Plain, name, value, None, None, false, None)
  }

  /** `widgets.find(w => w.name === name)`: the first widget so named. */
  function FindByName(ws: seq<Widget>, name: string): (r: Option<Widget>)
    ensures r.Some? ==> r.value in ws && r.value.name == name
    ensures r.None? <==> forall i :: 0 <= i < |ws| ==> ws[i].name != name
  {
    if |ws| == 0 then None
    else if ws[0].name == name then Some(ws[0])
    else FindByName(ws[1..], name)
  }
}
