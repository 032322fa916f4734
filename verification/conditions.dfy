/** Conditional visibility of generated fields (`evaluateConditions`). */
module Conditions {
  import opened Wrappers
  import opened Text
  import opened Json
  import opened Widgets

  /** Last path segment → current value; `None` values are `undefined`. */
  type ValueTable = seq<(string, Option<JVal>)>

  /** The first loop of the evaluation: every path-bearing widget, in
      order, stores its value under the last segment of its path, later
      widgets overwriting earlier ones. */
  function ValueTableOf(ws: seq<Widget>): ValueTable
    decreases |ws|
  {
    if |ws| == 0 then []
    else
      var t := ValueTableOf(ws[..|ws| - 1]);
      var w := ws[|ws| - 1];
      if HasPath(w) then SetKey(t, LastPiece(w.path.value, Sep), w.value) else t
  }

  /** `values[k]`: `undefined` when the key was never stored. */
  function Current(t: ValueTable, k: string): Option<JVal> {
    match Get(t, k)
    case Some(v) => v
    case None => None
  }

  /** The reference reading of the lookup: the value of the LAST
      path-bearing widget whose path ends in segment `k`, or `undefined`
      when there is none. */
  function LastWriter(ws: seq<Widget>, k: string): Option<JVal>
    decreases |ws|
  {
    if |ws| == 0 then None
    else
      var w := ws[|ws| - 1];
      if HasPath(w) && LastPiece(w.path.value, Sep) == k then w.value
      else LastWriter(ws[..|ws| - 1], k)
  }

  /** The table answers every lookup with the last writer's value. */
  lemma {:induction false} ValueTableIsLastWriter(ws: seq<Widget>, k: string)
    ensures Current(ValueTableOf(ws), k) == LastWriter(ws, k)
    decreases |ws|
  {
    if |ws| > 0 {
      ValueTableIsLastWriter(ws[..|ws| - 1], k);
    }
  }

  /** `s` occurs inside `t`. */
  predicate IsSubstring(s: string, t: string) {
    IsPrefix(s, t) || (|t| > 0 && IsSubstring(s, t[1..]))
  }

  /** `allowed.includes(current)`: membership for an option list, substring
      search for a string. Array membership compares strings and `null` by
      value but objects and arrays by reference; a widget value never shares
      a reference with an entry of a parsed condition list, so an object or
      array value is never a member. */
  predicate Includes(allowed: JVal, current: JVal) {
    match allowed
    case JArr(items) => (current.JStr? || current.JNull?) && current in items
    case JStr(s) => IsSubstring(JsString(current), s)
    case _ => false
  }

  /** An object or array value is never found in a condition list, even
      one holding an equal value. */
  lemma ReferenceNeverIncluded(items: seq<JVal>, current: JVal)
    requires current.JObj? || current.JArr?
    ensures !Includes(JArr(items), current)
    ensures !Includes(JArr([current]), current)
  {
  }

  /** One condition holds: the current value of `key` is truthy and allowed. */
  predicate Holds(current: Option<JVal>, allowed: JVal) {
    JsTruthyOpt(current) && Includes(allowed, current.value)
  }

  /** The loop over a widget's conditions, as the source runs it: every
      condition must hold. */
  predicate VisibleIn(conds: Fields, t: ValueTable) {
    forall i :: 0 <= i < |conds| ==> Holds(Current(t, conds[i].0), conds[i].1)
  }

  /** The visibility rule stated on the widgets themselves. */
  predicate VisibleAmong(conds: Fields, ws: seq<Widget>) {
    forall i :: 0 <= i < |conds| ==> Holds(LastWriter(ws, conds[i].0), conds[i].1)
  }

  function ApplyVisibility(ws: seq<Widget>, t: ValueTable): (r: seq<Widget>)
    ensures |r| == |ws|
  {
    if |ws| == 0 then []
    else
      var w := ws[0];
      var w' := if w.conditions.Some? then w.(hidden := !VisibleIn(w.conditions.value, t)) else w;
      [w'] + ApplyVisibility(ws[1..], t)
  }

  /** `evaluateConditions(node)` over the node's widgets. */
  function Evaluate(ws: seq<Widget>): (r: seq<Widget>)
    ensures |r| == |ws|
  {
    ApplyVisibility(ws, ValueTableOf(ws))
  }

  lemma {:induction false} ApplyVisibilityAt(ws: seq<Widget>, t: ValueTable, i: nat)
    requires i < |ws|
    ensures ApplyVisibility(ws, t)[i]
      == if ws[i].conditions.Some? then ws[i].(hidden := !VisibleIn(ws[i].conditions.value, t)) else ws[i]
  {
    if i > 0 {
      ApplyVisibilityAt(ws[1..], t, i - 1);
    }
  }

  /** A widget with conditions is visible exactly when every condition key
      names a truthy, allowed value of its last writer; an empty condition
      map means visible; a widget without conditions keeps its hidden flag;
      nothing but the hidden flag ever changes. */
  lemma EvaluateSpec(ws: seq<Widget>)
    ensures |Evaluate(ws)| == |ws|
    ensures forall i :: 0 <= i < |ws| ==> Evaluate(ws)[i] == ws[i].(hidden := Evaluate(ws)[i].hidden)
    ensures forall i :: 0 <= i < |ws| && ws[i].conditions.None? ==> Evaluate(ws)[i].hidden == ws[i].hidden
    ensures forall i :: 0 <= i < |ws| && ws[i].conditions.Some? ==>
      (!Evaluate(ws)[i].hidden <==> VisibleAmong(ws[i].conditions.value, ws))
    ensures forall i :: 0 <= i < |ws| && ws[i].conditions == Some([]) ==> !Evaluate(ws)[i].hidden
  {
    var t := ValueTableOf(ws);
    forall i | 0 <= i < |ws|
      ensures Evaluate(ws)[i] == if ws[i].conditions.Some?
        then ws[i].(hidden := !VisibleAmong(ws[i].conditions.value, ws)) else ws[i]
    {
      ApplyVisibilityAt(ws, t, i);
      if ws[i].conditions.Some? {
        var c := ws[i].conditions.value;
        forall j | 0 <= j < |c| ensures Current(t, c[j].0) == LastWriter(ws, c[j].0) {
          ValueTableIsLastWriter(ws, c[j].0);
        }
      }
    }
  }

  /** Two widget lists with the same paths and values give the same table. */
  lemma {:induction false} ValueTableDependsOnPathsAndValues(a: seq<Widget>, b: seq<Widget>)
    requires |a| == |b|
    requires forall i :: 0 <= i < |a| ==> a[i].path == b[i].path && a[i].value == b[i].value
    ensures ValueTableOf(a) == ValueTableOf(b)
    decreases |a|
  {
    if |a| > 0 {
      ValueTableDependsOnPathsAndValues(a[..|a| - 1], b[..|b| - 1]);
    }
  }

  /** Evaluating again changes nothing: visibility depends only on paths
      and values, which evaluation never touches. */
  lemma EvaluateIdempotent(ws: seq<Widget>)
    ensures Evaluate(Evaluate(ws)) == Evaluate(ws)
  {
    var r := Evaluate(ws);
    EvaluateSpec(ws);
    ValueTableDependsOnPathsAndValues(r, ws);
    var t := ValueTableOf(ws);
    forall i | 0 <= i < |r| ensures Evaluate(r)[i] == r[i] {
      ApplyVisibilityAt(r, t, i);
      ApplyVisibilityAt(ws, t, i);
    }
  }

  /** A field conditioned on `gender` being `female`, next to a `gender`
      dropdown currently showing `g`. */
  function GenderExample(g: Option<JVal>): seq<Widget> {
    [ Widget(Combo([JStr("female"), JStr("male")]), "Gender", g, Some("gender"), Some([]), false, None),
      Widget(TextBox, "Dress", Some(JStr("")), Some("dress"),
             Some([("gender", JArr([JStr("female")]))]), false, None) ]
  }

  lemma VisibleSingle(t: ValueTable, key: string, allowed: JVal)
    ensures VisibleIn([(key, allowed)], t) == Holds(Current(t, key), allowed)
  {
    var c := [(key, allowed)];
    assert c[0] == (key, allowed);
    if Holds(Current(t, key), allowed) {
      forall i | 0 <= i < |c| ensures Holds(Current(t, c[i].0), c[i].1) {
        assert i == 0;
      }
    }
  }

  /** A widget with a single condition is hidden exactly when the last
      writer of the condition key does not satisfy it. */
  lemma SingleCondition(ws: seq<Widget>, i: nat, key: string, allowed: JVal)
    requires i < |ws| && ws[i].conditions == Some([(key, allowed)])
    ensures Evaluate(ws)[i].hidden == !Holds(LastWriter(ws, key), allowed)
  {
    var t := ValueTableOf(ws);
    ApplyVisibilityAt(ws, t, i);
    ValueTableIsLastWriter(ws, key);
    VisibleSingle(t, key, allowed);
  }

  /** With two dot-free paths, the first writes its own key when the
      second path differs. */
  lemma PlainWriter(ws: seq<Widget>, key: string)
    requires |ws| == 2 && HasPath(ws[0]) && HasPath(ws[1])
    requires ws[0].path.value == key && ws[1].path.value != key
    requires Sep !in key && Sep !in ws[1].path.value
    ensures LastWriter(ws, key) == ws[0].value
  {
    SplitNoSep(key, Sep);
    SplitNoSep(ws[1].path.value, Sep);
    assert ws[..1] == [ws[0]];
    assert ws[..1][..0] == [];
  }

  lemma GenderExampleWriter(g: Option<JVal>)
    ensures LastWriter(GenderExample(g), "gender") == g
  {
    PlainWriter(GenderExample(g), "gender");
  }

  lemma GenderExampleRule(g: Option<JVal>)
    ensures Evaluate(GenderExample(g))[1].hidden == !Holds(g, JArr([JStr("female")]))
  {
    GenderExampleWriter(g);
    SingleCondition(GenderExample(g), 1, "gender", JArr([JStr("female")]));
  }

  /** The conditioned field is hidden for `male` or an undefined value and
      visible for `female`. */
  lemma GenderConditionExample()
    ensures Evaluate(GenderExample(Some(JStr("male"))))[1].hidden
    ensures Evaluate(GenderExample(None))[1].hidden
    ensures !Evaluate(GenderExample(Some(JStr("female"))))[1].hidden
  {
    MaleHidden();
    UndefinedHidden();
    FemaleVisible();
  }

  lemma MaleHidden()
    ensures Evaluate(GenderExample(Some(JStr("male"))))[1].hidden
  {
    GenderExampleRule(Some(JStr("male")));
    assert JStr("male") != JStr("female") by {
      assert "male"[0] != "female"[0];
    }
  }

  lemma UndefinedHidden()
    ensures Evaluate(GenderExample(None))[1].hidden
  {
    GenderExampleRule(None);
  }

  lemma FemaleVisible()
    ensures !Evaluate(GenderExample(Some(JStr("female"))))[1].hidden
  {
    GenderExampleRule(Some(JStr("female")));
  }
}
