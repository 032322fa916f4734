/** Scene composition and the preview of `refreshNode`: every linked,
    active origin contributes its resolved value under a key chosen from
    the origin (`camera`, `character_N` numbered in input order, or a
    name), and the preview is rewritten only when the scene changed. */
module Scene {
  import opened Wrappers
  import opened Text
  import opened Json
  import opened Widgets
  import opened Graph
  import opened Ports

  /** How an origin picks its scene key. */
  datatype KeyRule = Camera | Character | Named(key: string)

  const CameraKey: string := "camera"
  const CharacterPrefix: string := "character"

  /** `category.startsWith("character")`, for a string category. */
  predicate IsCharacterCategory(c: Option<JVal>) {
    JsTruthyOpt(c) && c.value.JStr? && IsPrefix(CharacterPrefix, c.value.str)
  }

  /** The key rule of one origin reached through input `inp`. */
  function KeyRuleOf(origin: Node, inp: Input): KeyRule {
    if origin.cls.StructuredBuilder? then
      var cw := FindByName(origin.widgets, "category");
      var category := if cw.None? then None else cw.value.value;
      if category == Some(JStr(CameraKey)) then Camera
      else if IsCharacterCategory(category) then Character
      else Named(if IsNullish(category) then inp.name else JsString(category.value))
    else Named(NameKey(origin, inp))
  }

  /** The key rule case by case: a structured builder is keyed `camera`,
      by character number, or by its category (the input's name when the
      category is null or undefined); any other origin by its `var_name`,
      else its `obj_name` widget, falling back to the input's name. */
  lemma KeyRuleCases(origin: Node, inp: Input)
    ensures var cw := FindByName(origin.widgets, "category");
      var category := if cw.None? then None else cw.value.value;
      origin.cls.StructuredBuilder? ==>
        && (category == Some(JStr("camera")) <==> KeyRuleOf(origin, inp).Camera?)
        && (IsCharacterCategory(category) <==> KeyRuleOf(origin, inp).Character?)
        && (IsNullish(category) ==> KeyRuleOf(origin, inp) == Named(inp.name))
        && ((category.Some? && category.value.JStr? && !IsCharacterCategory(category)
             && category.value.str != "camera") ==> KeyRuleOf(origin, inp) == Named(category.value.str))
    ensures var vw := FindByName(origin.widgets, "var_name");
      var ow := FindByName(origin.widgets, "obj_name");
      var v := if vw.Some? then vw.value.value else if ow.Some? then ow.value.value else Some(JNull);
      !origin.cls.StructuredBuilder? ==>
        KeyRuleOf(origin, inp) == Named(if IsNullish(v) then inp.name else JsString(v.value))
  {
    var ws := origin.widgets;
    assert ["var_name", "obj_name"][1..] == ["obj_name"];
    assert GetWidgetValue(ws, ["obj_name"][1..]) == NoWidget;
    var ow := FindByName(ws, "obj_name");
    assert GetWidgetValue(ws, ["obj_name"]) == if ow.Some? then HasWidget(ow.value.value) else NoWidget;
  }

  /** `character_N`. */
  function CharacterKey(n: nat): string {
    CharacterPrefix + "_" + NatToString(n)
  }

  /** The origin of input `inp`, when it is linked, its link exists and
      the origin is an existing, active node. */
  function ActiveOrigin(g: Graph, inp: Input): Option<int> {
    var o := OriginOf(g, inp);
    if o.Some? && IsNodeActive(NodeById(g, o.value)) then o else None
  }

  /** What one input brings to the scene loop: nothing (`continue`), or
      its origin's key rule and resolved value. */
  datatype Slot = Skip | Origin(rule: KeyRule, value: Option<JVal>)

  function SlotOf(g: Graph, rank: map<int, nat>, inp: Input): Slot
    requires Ranked(g, rank)
  {
    var o := ActiveOrigin(g, inp);
    if o.None? then Skip else Origin(KeyRuleOf(g.nodes[o.value], inp), Resolve(g, rank, o.value))
  }

  function Slots(g: Graph, rank: map<int, nat>, ins: seq<Input>): (r: seq<Slot>)
    requires Ranked(g, rank)
    ensures |r| == |ins| && forall i :: 0 <= i < |ins| ==> r[i] == SlotOf(g, rank, ins[i])
  {
    if |ins| == 0 then [] else [SlotOf(g, rank, ins[0])] + Slots(g, rank, ins[1..])
  }

  /** The key a rule picks when the character counter stands at `next`. */
  function KeyFor(rule: KeyRule, next: nat): string {
    match rule
    case Camera => CameraKey
    case Character => CharacterKey(next)
    case Named(n) => n
  }

  /** The loop state: the scene so far and `characterCount`. */
  datatype Composition = Composition(scene: Fields, next: nat)

  /** The scene loop over the first `k` slots. */
  function Compose(slots: seq<Slot>, k: nat): Composition
    requires k <= |slots|
    decreases k
  {
    if k == 0 then Composition([], 1) else Advance(Compose(slots, k - 1), slots[k - 1])
  }

  /** One iteration of the loop body. */
  function Advance(st: Composition, s: Slot): Composition {
    if s.Skip? then st
    else
      var next := if s.rule.Character? then st.next + 1 else st.next;
      Composition(if s.value.None? then st.scene else SetKey(st.scene, KeyFor(s.rule, st.next), s.value.value), next)
  }

  predicate IsCharacter(s: Slot) {
    s.Origin? && s.rule.Character?
  }

  /** The number of character slots among the first `k`. */
  function CharactersBefore(slots: seq<Slot>, k: nat): nat
    requires k <= |slots|
    decreases k
  {
    if k == 0 then 0
    else CharactersBefore(slots, k - 1) + (if IsCharacter(slots[k - 1]) then 1 else 0)
  }

  /** The scene key slot `i` writes under. */
  function SceneKey(slots: seq<Slot>, i: nat): string
    requires i < |slots| && slots[i].Origin?
  {
    KeyFor(slots[i].rule, 1 + CharactersBefore(slots, i))
  }

  /** What one slot writes when the counter stands at `next`. */
  function WriteOf(s: Slot, next: nat): Fields {
    if s.Skip? || s.value.None? then [] else [(KeyFor(s.rule, next), s.value.value)]
  }

  /** The `(key, value)` writes of the first `k` slots, in order. */
  function SceneWrites(slots: seq<Slot>, k: nat): Fields
    requires k <= |slots|
    decreases k
  {
    if k == 0 then [] else SceneWrites(slots, k - 1) + WriteOf(slots[k - 1], 1 + CharactersBefore(slots, k - 1))
  }

  /** The loop's counter is one more than the number of character slots
      seen, whatever other origins are interleaved. */
  lemma {:induction false} ComposeCounter(slots: seq<Slot>, k: nat)
    requires k <= |slots|
    ensures Compose(slots, k).next == 1 + CharactersBefore(slots, k)
    decreases k
  {
    if k > 0 {
      ComposeCounter(slots, k - 1);
    }
  }

  /** One iteration of the loop, with the key made explicit. */
  lemma ComposeStep(slots: seq<Slot>, k: nat)
    requires 0 < k <= |slots|
    ensures slots[k - 1].Skip? || slots[k - 1].value.None? ==> Compose(slots, k).scene == Compose(slots, k - 1).scene
    ensures slots[k - 1].Origin? && slots[k - 1].value.Some? ==>
      Compose(slots, k).scene == SetKey(Compose(slots, k - 1).scene, SceneKey(slots, k - 1), slots[k - 1].value.value)
  {
    var s := slots[k - 1];
    if s.Origin? && s.value.Some? {
      var st := Compose(slots, k - 1);
      ComposeCounter(slots, k - 1);
      assert KeyFor(s.rule, st.next) == SceneKey(slots, k - 1);
      assert Compose(slots, k).scene == SetKey(st.scene, KeyFor(s.rule, st.next), s.value.value);
    }
  }

  /** One loop iteration from a state that is an assignment of writes. */
  lemma AdvanceAssign(prev: Fields, c: nat, s: Slot)
    ensures Advance(Composition(Assign(prev), c), s)
      == Composition(Assign(prev + WriteOf(s, c)), c + if IsCharacter(s) then 1 else 0)
  {
    if s.Skip? || s.value.None? {
      assert prev + WriteOf(s, c) == prev;
    } else {
      AssignSnoc(prev, WriteOf(s, c)[0]);
    }
  }

  /** The loop state after `k` slots: the writes assigned in order, and
      the counter one past the characters seen. */
  lemma {:induction false} ComposeState(slots: seq<Slot>, k: nat)
    requires k <= |slots|
    ensures Compose(slots, k) == Composition(Assign(SceneWrites(slots, k)), 1 + CharactersBefore(slots, k))
    decreases k
  {
    if k > 0 {
      ComposeState(slots, k - 1);
      AdvanceAssign(SceneWrites(slots, k - 1), 1 + CharactersBefore(slots, k - 1), slots[k - 1]);
    }
  }

  /** The loop's scene is its writes, assigned in order. */
  lemma ComposeSpec(slots: seq<Slot>, k: nat)
    requires k <= |slots|
    ensures Compose(slots, k).scene == Assign(SceneWrites(slots, k))
  {
    ComposeState(slots, k);
  }

  lemma {:induction false} CountGrows(slots: seq<Slot>, i: nat, j: nat)
    requires i < j <= |slots| && IsCharacter(slots[i])
    ensures CharactersBefore(slots, j) > CharactersBefore(slots, i)
    decreases j
  {
    if j > i + 1 {
      CountGrows(slots, i, j - 1);
    }
  }

  /** Two different character slots get different keys. */
  lemma CharacterKeysDistinct(slots: seq<Slot>, i: nat, j: nat)
    requires i < j < |slots| && IsCharacter(slots[i]) && IsCharacter(slots[j])
    ensures SceneKey(slots, i) != SceneKey(slots, j)
  {
    CountGrows(slots, i, j);
    var m := 1 + CharactersBefore(slots, i);
    var n := 1 + CharactersBefore(slots, j);
    var a := NatToString(m);
    var b := NatToString(n);
    if SceneKey(slots, i) == SceneKey(slots, j) {
      assert (CharacterPrefix + "_" + a)[|CharacterPrefix| + 1..] == a;
      assert (CharacterPrefix + "_" + b)[|CharacterPrefix| + 1..] == b;
      NatToStringInjective(m, n);
    }
  }

  /** The n-th character slot (counting from 1) is keyed `character_n`. */
  lemma CharacterNumbering(slots: seq<Slot>, i: nat)
    requires i < |slots| && IsCharacter(slots[i])
    ensures SceneKey(slots, i) == CharacterKey(CharactersBefore(slots, i + 1))
  {
  }

  /** The composed scene: each key holds the value of the last slot that
      writes it, and its keys are the written keys in first-write order. */
  lemma SceneContents(slots: seq<Slot>)
    ensures var scene := Compose(slots, |slots|).scene;
      && UniqueKeys(scene)
      && KeysOf(scene) == Dedup(KeysOf(SceneWrites(slots, |slots|)))
      && forall key :: Get(scene, key) == LastWith(SceneWrites(slots, |slots|), key)
  {
    ComposeSpec(slots, |slots|);
    AssignSpec(SceneWrites(slots, |slots|));
  }

  /** Which inputs reach a character origin does not depend on the
      others: a slot's rule is read off its own origin. */
  lemma SlotIsLocal(g: Graph, rank: map<int, nat>, ins: seq<Input>, i: nat)
    requires Ranked(g, rank) && i < |ins|
    ensures IsCharacter(Slots(g, rank, ins)[i])
      <==> ActiveOrigin(g, ins[i]).Some? && KeyRuleOf(g.nodes[ActiveOrigin(g, ins[i]).value], ins[i]).Character?
  {
  }

  // ---------------------------------------------------------------------
  // Refresh: preview and ports
  // ---------------------------------------------------------------------

  /** The scene document of a node's inputs. */
  function SceneOf(g: Graph, rank: map<int, nat>, ins: seq<Input>): JVal
    requires Ranked(g, rank)
  {
    JObj(Compose(Slots(g, rank, ins), |ins|).scene)
  }

  /** The outcome of one refresh: the new input list, the preview text (as
      the document it encodes; `None` for text no scene encodes, such as
      the initial empty preview) and whether the preview was written. */
  datatype Refreshed = Refreshed(inputs: seq<Input>, preview: Option<JVal>, written: bool)

  /** `refreshNode(node, graph, previewWidget)` for a node with inputs;
      `hasPreview` is false for object nodes, which have no preview. */
  function Refresh(g: Graph, rank: map<int, nat>, ins: seq<Input>, hasPreview: bool, preview: Option<JVal>): (r: Refreshed)
    requires Ranked(g, rank)
    ensures r.inputs == Step(ins)
    ensures r.written <==> hasPreview && preview != Some(SceneOf(g, rank, ins))
    ensures hasPreview ==> r.preview == Some(SceneOf(g, rank, ins))
    ensures !r.written ==> r.preview == preview
  {
    if hasPreview && preview != Some(SceneOf(g, rank, ins)) then
      Refreshed(Step(ins), Some(SceneOf(g, rank, ins)), true)
    else Refreshed(Step(ins), preview, false)
  }

  lemma {:induction false} ComposePrefix(a: seq<Slot>, b: seq<Slot>, k: nat)
    requires k <= |a| && k <= |b| && a[..k] == b[..k]
    ensures Compose(a, k) == Compose(b, k)
    decreases k
  {
    if k > 0 {
      assert a[..k - 1] == a[..k][..k - 1];
      assert b[..k - 1] == b[..k][..k - 1];
      assert a[k - 1] == a[..k][k - 1];
      ComposePrefix(a, b, k - 1);
    }
  }

  /** A free input adds nothing to the scene. */
  lemma AppendFreeKeepsScene(g: Graph, rank: map<int, nat>, ins: seq<Input>, inp: Input)
    requires Ranked(g, rank) && !Linked(inp)
    ensures SceneOf(g, rank, ins + [inp]) == SceneOf(g, rank, ins)
  {
    var a := Slots(g, rank, ins + [inp]);
    var b := Slots(g, rank, ins);
    assert a[..|ins|] == b;
    assert a[|ins|] == Skip;
    ComposePrefix(a, b, |ins|);
  }

  /** Adding or removing the free input of the rule does not change the
      scene. */
  lemma StepKeepsScene(g: Graph, rank: map<int, nat>, ins: seq<Input>)
    requires Ranked(g, rank)
    ensures SceneOf(g, rank, Step(ins)) == SceneOf(g, rank, ins)
  {
    if |ins| > 0 && Linked(ins[|ins| - 1]) {
      StepGrows(ins);
      AppendFreeKeepsScene(g, rank, ins, NewInput(|ins|));
    } else if |ins| > 1 && !Linked(ins[|ins| - 2]) {
      StepShrinks(ins);
      var p := ins[..|ins| - 1];
      assert ins == p + [ins[|ins| - 1]];
      AppendFreeKeepsScene(g, rank, p, ins[|ins| - 1]);
    }
  }

  /** A second refresh against the same graph writes no preview, even
      though the first may have changed the input list. */
  lemma SecondRefreshWritesNothing(g: Graph, rank: map<int, nat>, ins: seq<Input>, hasPreview: bool, preview: Option<JVal>)
    requires Ranked(g, rank)
    ensures var r := Refresh(g, rank, ins, hasPreview, preview);
      !Refresh(g, rank, r.inputs, hasPreview, r.preview).written
  {
    StepKeepsScene(g, rank, ins);
  }
}
