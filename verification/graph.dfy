/** The graph resolver of the dynamic front end (`isNodeActive`,
    `getWidgetValue`, `getValueRecursive`), over a read-only snapshot of
    the graph: a node map and a link map from link id to origin node. */
module Graph {
  import opened Wrappers
  import opened Text
  import opened Json
  import opened Widgets
  import opened Nested

  /** The node classes the resolver dispatches on (`comfyClass`). */
  datatype NodeClass = Variable | StructuredBuilder | ObjectBuilder | OtherClass

  /** An input slot; `link == None` is a `null`/`undefined` link. */
  datatype Input = Input(name: string, link: Option<int>)

  /** A node; absent `widgets` or `inputs` are the empty sequence. */
  datatype Node = Node(cls: NodeClass, mode: int, widgets: seq<Widget>, inputs: seq<Input>)

  datatype Graph = Graph(nodes: map<int, Node>, links: map<int, int>)

  /** The muted (2) and bypassed (4) modes. */
  const ModeMuted: int := 2
  const ModeBypassed: int := 4

  /** `graph.getNodeById(id)`. */
  function NodeById(g: Graph, id: int): Option<Node> {
    if id in g.nodes then Some(g.nodes[id]) else None
  }

  /** `isNodeActive(node)`, where `None` is a missing node. */
  predicate IsNodeActive(n: Option<Node>) {
    n.Some? && n.value.mode != ModeMuted && n.value.mode != ModeBypassed
  }

  /** The origin node id of a linked input whose link exists. */
  function OriginOf(g: Graph, inp: Input): Option<int> {
    if inp.link.Some? && inp.link.value in g.links then Some(g.links[inp.link.value]) else None
  }

  /** The result of `getWidgetValue`: no listed widget exists (`null`), or
      the value of the first listed name that has a widget. */
  datatype WidgetLookup = NoWidget | HasWidget(value: Option<JVal>)

  /** `names[j]` is the first listed name that has a widget. */
  predicate FirstListed(ws: seq<Widget>, names: seq<string>, j: int) {
    && 0 <= j < |names| && FindByName(ws, names[j]).Some?
    && forall j' :: 0 <= j' < j ==> FindByName(ws, names[j']).None?
  }

  /** `getWidgetValue(node, names)`. */
  function GetWidgetValue(ws: seq<Widget>, names: seq<string>): WidgetLookup {
    if |names| == 0 then NoWidget
    else
      var w := FindByName(ws, names[0]);
      if w.Some? then HasWidget(w.value.value) else GetWidgetValue(ws, names[1..])
  }

  /** The lookup yields the value of the first listed name that has a
      widget, and nothing exactly when no listed name has one. */
  lemma {:induction false} GetWidgetValueSpec(ws: seq<Widget>, names: seq<string>)
    ensures GetWidgetValue(ws, names).NoWidget? <==> forall j :: 0 <= j < |names| ==> FindByName(ws, names[j]).None?
    ensures var r := GetWidgetValue(ws, names);
      r.HasWidget? ==> exists j :: FirstListed(ws, names, j) && r.value == FindByName(ws, names[j]).value.value
    decreases |names|
  {
    if |names| > 0 && FindByName(ws, names[0]).None? {
      var r := GetWidgetValue(ws, names[1..]);
      GetWidgetValueSpec(ws, names[1..]);
      assert forall j :: 1 <= j < |names| ==> names[1..][j - 1] == names[j];
      if r.HasWidget? {
        var j :| FirstListed(ws, names[1..], j) && r.value == FindByName(ws, names[1..][j]).value.value;
        assert FirstListed(ws, names, j + 1);
      }
    } else if |names| > 0 {
      assert FirstListed(ws, names, 0);
    }
  }

  /** The lookup as a JavaScript value: `null` when no widget exists. */
  function LookupValue(l: WidgetLookup): Option<JVal> {
    if l.NoWidget? then Some(JNull) else l.value
  }

  /** `getWidgetValue(origin, ["var_name", "obj_name"]) ?? input.name`, as
      the property key it becomes. */
  function NameKey(n: Node, inp: Input): string {
    var v := LookupValue(GetWidgetValue(n.widgets, ["var_name", "obj_name"]));
    if IsNullish(v) then inp.name else JsString(v.value)
  }

  /** A rank that strictly decreases along every link that reaches an
      existing node: the graph has no cycle, so the recursion ends. */
  predicate Ranked(g: Graph, rank: map<int, nat>) {
    && (forall id :: id in g.nodes ==> id in rank)
    && (forall id, i :: id in g.nodes && 0 <= i < |g.nodes[id].inputs|
          && OriginOf(g, g.nodes[id].inputs[i]).Some? && OriginOf(g, g.nodes[id].inputs[i]).value in g.nodes
          ==> OriginOf(g, g.nodes[id].inputs[i]).value in rank
              && rank[OriginOf(g, g.nodes[id].inputs[i]).value] < rank[id])
  }

  /** `getValueRecursive(node, graph)`; `None` is `undefined`. */
  function Resolve(g: Graph, rank: map<int, nat>, id: int): Option<JVal>
    requires Ranked(g, rank)
    decreases if id in rank then rank[id] else 0, 1, 0
  {
    if !IsNodeActive(NodeById(g, id)) then None
    else
      var n := g.nodes[id];
      match n.cls
      case Variable => Some(Coalesce(LookupValue(GetWidgetValue(n.widgets, ["text"])), JStr("")))
      case StructuredBuilder => Some(ResolveStructured(n.widgets))
      case ObjectBuilder => Some(JObj(Assign(ObjectEntries(g, rank, id, |n.inputs|))))
      case OtherClass => None
  }

  /** The `(key, value)` assignments the first `k` inputs of an object
      node make, in input order. */
  function ObjectEntries(g: Graph, rank: map<int, nat>, id: int, k: nat): Fields
    requires Ranked(g, rank) && id in g.nodes && k <= |g.nodes[id].inputs|
    decreases rank[id], 0, k
  {
    if k == 0 then []
    else
      var prev := ObjectEntries(g, rank, id, k - 1);
      var inp := g.nodes[id].inputs[k - 1];
      var o := OriginOf(g, inp);
      if o.None? || !IsNodeActive(NodeById(g, o.value)) then prev
      else
        var v := Resolve(g, rank, o.value);
        if v.None? then prev else prev + [(NameKey(g.nodes[o.value], inp), v.value)]
  }

  /** Input `i` of node `id` is linked to an existing, active origin whose
      value is defined. */
  predicate InputContributes(g: Graph, rank: map<int, nat>, id: int, i: nat)
    requires Ranked(g, rank) && id in g.nodes && i < |g.nodes[id].inputs|
  {
    var o := OriginOf(g, g.nodes[id].inputs[i]);
    o.Some? && IsNodeActive(NodeById(g, o.value)) && Resolve(g, rank, o.value).Some?
  }

  /** The key a contributing input assigns. */
  function InputKey(g: Graph, id: int, i: nat): string
    requires id in g.nodes && i < |g.nodes[id].inputs|
    requires OriginOf(g, g.nodes[id].inputs[i]).Some?
    requires OriginOf(g, g.nodes[id].inputs[i]).value in g.nodes
  {
    NameKey(g.nodes[OriginOf(g, g.nodes[id].inputs[i]).value], g.nodes[id].inputs[i])
  }

  /** The value a contributing input assigns. */
  function InputValue(g: Graph, rank: map<int, nat>, id: int, i: nat): JVal
    requires Ranked(g, rank) && id in g.nodes && i < |g.nodes[id].inputs|
    requires InputContributes(g, rank, id, i)
  {
    Resolve(g, rank, OriginOf(g, g.nodes[id].inputs[i]).value).value
  }

  /** A node resolves to a value exactly when it exists, is active and has
      one of the three known classes. */
  lemma ResolveDefinedIff(g: Graph, rank: map<int, nat>, id: int)
    requires Ranked(g, rank)
    ensures Resolve(g, rank, id).Some?
      <==> id in g.nodes && g.nodes[id].mode != ModeMuted && g.nodes[id].mode != ModeBypassed
           && !g.nodes[id].cls.OtherClass?
  {
  }

  /** A variable resolves to its `text` value, `""` standing in for a
      missing widget, `null` or `undefined`. */
  lemma VariableResolution(g: Graph, rank: map<int, nat>, id: int)
    requires Ranked(g, rank) && IsNodeActive(NodeById(g, id)) && g.nodes[id].cls.Variable?
    ensures var t := FindByName(g.nodes[id].widgets, "text");
      Resolve(g, rank, id) == Some(if t.None? || IsNullish(t.value.value) then JStr("") else t.value.value.value)
  {
    assert GetWidgetValue(g.nodes[id].widgets, ["text"][1..]) == NoWidget;
  }

  /** A structured builder resolves to a mapping holding, at each visible
      non-empty path, the value of the last widget with that path, and
      nothing at a path unrelated to all of them. */
  lemma StructuredResolution(g: Graph, rank: map<int, nat>, id: int, p: Path)
    requires Ranked(g, rank) && IsNodeActive(NodeById(g, id)) && g.nodes[id].cls.StructuredBuilder?
    requires PrefixFree(g.nodes[id].widgets, false)
    ensures var ws := g.nodes[id].widgets;
      && Resolve(g, rank, id).Some? && Resolve(g, rank, id).value.JObj?
      && (IsContribPath(ws, false, p) ==> GetPath(Resolve(g, rank, id).value, p) == LastValueAt(ws, false, p))
      && (|p| > 0 && UnrelatedToAll(ws, false, p) ==> GetPath(Resolve(g, rank, id).value, p) == None)
  {
    NestSpec(g.nodes[id].widgets, false, p);
  }

  /** Some contributing input among the first `k` assigns `key`. */
  predicate KeyAssigned(g: Graph, rank: map<int, nat>, id: int, k: nat, key: string)
    requires Ranked(g, rank) && id in g.nodes && k <= |g.nodes[id].inputs|
  {
    exists i :: 0 <= i < k && InputContributes(g, rank, id, i) && InputKey(g, id, i) == key
  }

  /** Input `i` is the last contributing input among the first `k` that
      assigns `key`. */
  predicate LastAssigner(g: Graph, rank: map<int, nat>, id: int, k: nat, key: string, i: nat)
    requires Ranked(g, rank) && id in g.nodes && k <= |g.nodes[id].inputs|
  {
    && i < k && InputContributes(g, rank, id, i) && InputKey(g, id, i) == key
    && forall j :: i < j < k && InputContributes(g, rank, id, j) ==> InputKey(g, id, j) != key
  }

  /** One step of the assignment list. */
  lemma ObjectEntriesStep(g: Graph, rank: map<int, nat>, id: int, k: nat)
    requires Ranked(g, rank) && id in g.nodes && 0 < k <= |g.nodes[id].inputs|
    ensures ObjectEntries(g, rank, id, k)
      == ObjectEntries(g, rank, id, k - 1)
         + if InputContributes(g, rank, id, k - 1)
           then [(InputKey(g, id, k - 1), InputValue(g, rank, id, k - 1))] else []
  {
  }

  /** Some assignment to `key` is made among the first `k` inputs exactly
      when some contributing input among them is keyed `key`. */
  lemma {:induction false} ObjectEntriesKeyed(g: Graph, rank: map<int, nat>, id: int, k: nat, key: string)
    requires Ranked(g, rank) && id in g.nodes && k <= |g.nodes[id].inputs|
    ensures LastWith(ObjectEntries(g, rank, id, k), key).Some? <==> KeyAssigned(g, rank, id, k, key)
    decreases k
  {
    if k > 0 {
      ObjectEntriesKeyed(g, rank, id, k - 1, key);
      ObjectEntriesStep(g, rank, id, k);
    }
  }

  /** The last assignment to `key` among the first `k` inputs is that of
      the last contributing input keyed `key`. */
  lemma {:induction false} ObjectEntriesLast(g: Graph, rank: map<int, nat>, id: int, k: nat, key: string, i: nat)
    requires Ranked(g, rank) && id in g.nodes && k <= |g.nodes[id].inputs|
    requires LastAssigner(g, rank, id, k, key, i)
    ensures LastWith(ObjectEntries(g, rank, id, k), key) == Some(InputValue(g, rank, id, i))
    decreases k
  {
    var prev := ObjectEntries(g, rank, id, k - 1);
    ObjectEntriesStep(g, rank, id, k);
    if InputContributes(g, rank, id, k - 1) {
      var e := (InputKey(g, id, k - 1), InputValue(g, rank, id, k - 1));
      LastWithSnoc(prev, e, key);
      if i < k - 1 {
        assert LastAssigner(g, rank, id, k - 1, key, i);
        ObjectEntriesLast(g, rank, id, k - 1, key, i);
      }
    } else {
      assert LastAssigner(g, rank, id, k - 1, key, i);
      ObjectEntriesLast(g, rank, id, k - 1, key, i);
    }
  }

  /** An object node resolves to the assignments of its inputs. */
  lemma ObjectResolves(g: Graph, rank: map<int, nat>, id: int)
    requires Ranked(g, rank) && IsNodeActive(NodeById(g, id)) && g.nodes[id].cls.ObjectBuilder?
    ensures Resolve(g, rank, id) == Some(JObj(Assign(ObjectEntries(g, rank, id, |g.nodes[id].inputs|))))
  {
  }

  /** An object node resolves to a mapping whose keys are exactly those of
      its contributing inputs, in the order they first appear, each holding
      the value of the LAST contributing input with that key. */
  lemma ObjectResolution(g: Graph, rank: map<int, nat>, id: int, key: string)
    requires Ranked(g, rank) && IsNodeActive(NodeById(g, id)) && g.nodes[id].cls.ObjectBuilder?
    ensures var r := Resolve(g, rank, id);
      var n := |g.nodes[id].inputs|;
      && r.Some? && r.value.JObj? && UniqueKeys(r.value.fields)
      && KeysOf(r.value.fields) == Dedup(KeysOf(ObjectEntries(g, rank, id, n)))
      && (HasKey(r.value.fields, key) <==> KeyAssigned(g, rank, id, n, key))
      && forall i :: LastAssigner(g, rank, id, n, key, i) ==> Get(r.value.fields, key) == Some(InputValue(g, rank, id, i))
  {
    var n := |g.nodes[id].inputs|;
    var es := ObjectEntries(g, rank, id, n);
    ObjectResolves(g, rank, id);
    AssignSpec(es);
    ObjectEntriesKeyed(g, rank, id, n, key);
    forall i | LastAssigner(g, rank, id, n, key, i)
      ensures LastWith(es, key) == Some(InputValue(g, rank, id, i))
    {
      ObjectEntriesLast(g, rank, id, n, key, i);
    }
  }
}
