/** The registered component class of endemic.js: the field bag seeded from
    the host's attributes, the rendered nodes, the token registry, `render`,
    `_updateToken` and `_onAttributeChange`. */
module Component {
  import opened Wrappers
  import opened Scanner
  import opened Strings
  import opened Dom
  import opened TokenIndex
  import opened Discovery

  /** The instance's own fields, `this[name]`: a missing name is `undefined`,
      the value `None` is `null` (what `getAttribute` gives for an absent
      attribute). */
  type Fields = map<string, Option<string>>

  /** `this[key] || ""`: a missing, null or empty field substitutes as "". */
  function FieldText(fields: Fields, key: string): string {
    if key in fields && fields[key].Some? then fields[key].value else ""
  }

  datatype Instance = Instance(fields: Fields, nodes: seq<Node>, reg: Registry)

  /** The token's node exists and, for an attribute token, still carries the
      attribute, so `getAttribute` cannot return null for it. */
  ghost predicate TokenFits(nodes: seq<Node>, t: Token) {
    t.node < |nodes| && (t.attr.Some? ==> HasAttribute(nodes[t.node].attrs, t.attr.value))
  }

  ghost predicate AllFit(nodes: seq<Node>, ts: seq<Token>) {
    forall i :: 0 <= i < |ts| ==> TokenFits(nodes, ts[i])
  }

  ghost predicate Valid(inst: Instance) {
    AllFit(inst.nodes, inst.reg.tokens)
  }

  /** None of `ts` sits on node `m`. */
  predicate NoTokenOn(ts: seq<Token>, m: nat) {
    forall i :: 0 <= i < |ts| ==> ts[i].node != m
  }

  /** Every attribute of `a` is still present in `b`, node for node. */
  ghost predicate AttrsKept(a: seq<Node>, b: seq<Node>) {
    && |a| == |b|
    && forall m, x :: 0 <= m < |a| && HasAttribute(a[m].attrs, x) ==> HasAttribute(b[m].attrs, x)
  }

  /** No node's `setAttribute` interception changed. */
  ghost predicate WatchesKept(a: seq<Node>, b: seq<Node>) {
    |a| == |b| && forall m :: 0 <= m < |a| ==> a[m].watched == b[m].watched
  }

  /** Every name watched on some node. */
  function AllWatched(nodes: seq<Node>): set<string> {
    set m, x | 0 <= m < |nodes| && x in nodes[m].watched :: x
  }

  lemma SameWatches(a: seq<Node>, b: seq<Node>)
    requires WatchesKept(a, b)
    ensures AllWatched(a) == AllWatched(b)
  {
    assert forall m, x :: 0 <= m < |a| && x in a[m].watched ==> x in b[m].watched;
  }

  /** No token of the list writes node `n`'s text. */
  predicate NoTextOn(ts: seq<Token>, n: nat) {
    forall i :: 0 <= i < |ts| ==> ts[i].node != n || ts[i].attr.Some?
  }

  /** `f` and `g` agree on every name outside `w`. */
  ghost predicate AgreeOff(f: Fields, g: Fields, w: set<string>) {
    forall k :: k !in w ==> (k in f <==> k in g) && (k in f ==> f[k] == g[k])
  }

  lemma FitsKept(a: seq<Node>, b: seq<Node>, ts: seq<Token>)
    requires AttrsKept(a, b) && AllFit(a, ts)
    ensures AllFit(b, ts)
  {
    forall i | 0 <= i < |ts| ensures TokenFits(b, ts[i]) {
      assert TokenFits(a, ts[i]);
    }
  }

  /** `node.setAttribute(name, value)` once discovery has run: for a watched
      name the wrapper first copies the value into the instance field of the
      same name, then the attribute is written. */
  function SetAttribute(inst: Instance, n: nat, name: string, value: string): (r: Instance)
    requires n < |inst.nodes|
    ensures r.reg == inst.reg
    ensures r.nodes == inst.nodes[n := inst.nodes[n].(attrs := SetAttr(inst.nodes[n].attrs, name, value))]
    ensures r.fields == if name in inst.nodes[n].watched then inst.fields[name := Some(value)] else inst.fields
  {
    var fields := if name in inst.nodes[n].watched then inst.fields[name := Some(value)] else inst.fields;
    var node := inst.nodes[n];
    inst.(fields := fields, nodes := inst.nodes[n := node.(attrs := SetAttr(node.attrs, name, value))])
  }

  /** Through the wrapper, a watched field and its attribute never disagree:
      both read back the written value. Any other write leaves every field
      alone. Other attributes and nodes are untouched either way. */
  lemma SetAttributeMirrors(inst: Instance, n: nat, name: string, value: string)
    requires n < |inst.nodes|
    ensures var r := SetAttribute(inst, n, name, value);
            && GetAttribute(r.nodes[n].attrs, name) == Some(value)
            && (name in inst.nodes[n].watched ==> FieldText(r.fields, name) == value)
            && (name !in inst.nodes[n].watched ==> r.fields == inst.fields)
            && (forall b :: b != name ==> GetAttribute(r.nodes[n].attrs, b) == GetAttribute(inst.nodes[n].attrs, b))
            && (forall m :: 0 <= m < |inst.nodes| && m != n ==> r.nodes[m] == inst.nodes[m])
            && AttrsKept(inst.nodes, r.nodes) && WatchesKept(inst.nodes, r.nodes)
  {
    var r := SetAttribute(inst, n, name, value);
    GetAfterSet(inst.nodes[n].attrs, name, value);
    forall m, x | 0 <= m < |inst.nodes| && HasAttribute(inst.nodes[m].attrs, x)
      ensures HasAttribute(r.nodes[m].attrs, x)
    {
      if m == n && x != name {
        assert GetAttribute(inst.nodes[n].attrs, x).Some?;
      }
    }
  }

  /** One iteration of `render`'s loop (endemic.js:184-210); with `last` set
      to `None` it is `_updateToken` (endemic.js:88-111). The content to work
      on is the token's snapshot unless the previous token was on the same
      node, in which case it is the node's current text or attribute value.
      The first occurrence of the raw token in it is replaced by the field
      value, and the result written back, an attribute through the node's
      possibly wrapped `setAttribute`. */
  function ApplyToken(inst: Instance, t: Token, last: Option<nat>): (r: Instance)
    requires TokenFits(inst.nodes, t)
  {
    var node := inst.nodes[t.node];
    var value := FieldText(inst.fields, t.Key());
    match t.attr
    case Some(a) =>
      var content := if last == Some(t.node) then GetAttribute(node.attrs, a).value else t.initialValue;
      SetAttribute(inst, t.node, a, ReplaceFirst(content, t.raw, value))
    case None =>
      var content := if last == Some(t.node) then node.text else t.initialValue;
      inst.(nodes := inst.nodes[t.node := node.(text := ReplaceFirst(content, t.raw, value))])
  }

  /** What one token's step may change: its own text or attribute, and for a
      watched attribute the field of that name; nothing else. */
  ghost predicate StepFrame(inst: Instance, t: Token, r: Instance)
    requires t.node < |inst.nodes|
  {
    && r.reg == inst.reg
    && AttrsKept(inst.nodes, r.nodes) && WatchesKept(inst.nodes, r.nodes)
    && (forall m :: 0 <= m < |inst.nodes| && m != t.node ==> r.nodes[m] == inst.nodes[m])
    && AgreeOff(r.fields, inst.fields, inst.nodes[t.node].watched)
    && (t.attr.None? ==> r.fields == inst.fields && r.nodes[t.node].attrs == inst.nodes[t.node].attrs)
    && (t.attr.Some? ==> r.nodes[t.node].text == inst.nodes[t.node].text)
  }

  lemma ApplyTokenFrame(inst: Instance, t: Token, last: Option<nat>)
    requires TokenFits(inst.nodes, t)
    ensures StepFrame(inst, t, ApplyToken(inst, t, last))
  {
    if t.attr.Some? {
      AttrStepFrame(inst, t, last);
    } else {
      TextStepFrame(inst, t, last);
    }
  }

  lemma AttrStepFrame(inst: Instance, t: Token, last: Option<nat>)
    requires TokenFits(inst.nodes, t) && t.attr.Some?
    ensures StepFrame(inst, t, ApplyToken(inst, t, last))
  {
    var node := inst.nodes[t.node];
    var a := t.attr.value;
    var content := if last == Some(t.node) then GetAttribute(node.attrs, a).value else t.initialValue;
    var out := ReplaceFirst(content, t.raw, FieldText(inst.fields, t.Key()));
    assert ApplyToken(inst, t, last) == SetAttribute(inst, t.node, a, out);
    SetAttributeMirrors(inst, t.node, a, out);
  }

  lemma TextStepFrame(inst: Instance, t: Token, last: Option<nat>)
    requires TokenFits(inst.nodes, t) && t.attr.None?
    ensures StepFrame(inst, t, ApplyToken(inst, t, last))
  {
    var r := ApplyToken(inst, t, last);
    assert forall m :: 0 <= m < |inst.nodes| ==>
             r.nodes[m].attrs == inst.nodes[m].attrs && r.nodes[m].watched == inst.nodes[m].watched;
  }

  /** A step writes at most its own attribute: every other attribute, on
      every node, reads as before. */
  lemma ApplyTokenOtherAttrs(inst: Instance, t: Token, last: Option<nat>, b: string)
    requires TokenFits(inst.nodes, t) && t.attr != Some(b)
    ensures var r := ApplyToken(inst, t, last);
            forall m :: 0 <= m < |inst.nodes| ==>
              m < |r.nodes| && GetAttribute(r.nodes[m].attrs, b) == GetAttribute(inst.nodes[m].attrs, b)
  {
    ApplyTokenFrame(inst, t, last);
    if t.attr.Some? {
      var node := inst.nodes[t.node];
      var a := t.attr.value;
      var content := if last == Some(t.node) then GetAttribute(node.attrs, a).value else t.initialValue;
      var out := ReplaceFirst(content, t.raw, FieldText(inst.fields, t.Key()));
      assert ApplyToken(inst, t, last) == SetAttribute(inst, t.node, a, out);
      SetAttributeMirrors(inst, t.node, a, out);
    }
  }

  /** The content one step starts from. */
  function StartContent(inst: Instance, t: Token, last: Option<nat>): string
    requires TokenFits(inst.nodes, t)
  {
    if last != Some(t.node) then t.initialValue
    else match t.attr
      case Some(a) => GetAttribute(inst.nodes[t.node].attrs, a).value
      case None => inst.nodes[t.node].text
  }

  /** The written content: the first occurrence of the raw token in the
      starting content, replaced by the field value. */
  lemma ApplyTokenTarget(inst: Instance, t: Token, last: Option<nat>)
    requires TokenFits(inst.nodes, t)
    ensures var r := ApplyToken(inst, t, last);
            var out := ReplaceFirst(StartContent(inst, t, last), t.raw, FieldText(inst.fields, t.Key()));
            && (t.attr.None? ==> r.nodes[t.node].text == out)
            && (t.attr.Some? ==> GetAttribute(r.nodes[t.node].attrs, t.attr.value) == Some(out))
  {
    if t.attr.Some? {
      SetAttributeMirrors(inst, t.node, t.attr.value,
        ReplaceFirst(StartContent(inst, t, last), t.raw, FieldText(inst.fields, t.Key())));
    }
  }

  /** A run's frame is its first step's frame followed by the rest's: a
      step that may write only its own node, and fields that node watches,
      composed with a run that keeps attributes, watches, the nodes it has no
      token on, and the unwatched fields. */
  lemma FrameCompose(inst: Instance, ts: seq<Token>, next: Instance, r: Instance)
    requires |ts| > 0 && ts[0].node < |inst.nodes|
    requires next.reg == inst.reg && AttrsKept(inst.nodes, next.nodes) && WatchesKept(inst.nodes, next.nodes)
    requires forall m :: 0 <= m < |inst.nodes| && m != ts[0].node ==> next.nodes[m] == inst.nodes[m]
    requires AgreeOff(next.fields, inst.fields, inst.nodes[ts[0].node].watched)
    requires r.reg == next.reg && AttrsKept(next.nodes, r.nodes) && WatchesKept(next.nodes, r.nodes)
    requires forall m :: 0 <= m < |next.nodes| && NoTokenOn(ts[1..], m) ==> r.nodes[m] == next.nodes[m]
    requires AgreeOff(r.fields, next.fields, AllWatched(next.nodes))
    ensures r.reg == inst.reg
    ensures AttrsKept(inst.nodes, r.nodes) && WatchesKept(inst.nodes, r.nodes)
    ensures forall m :: 0 <= m < |inst.nodes| && NoTokenOn(ts, m) ==> r.nodes[m] == inst.nodes[m]
    ensures AgreeOff(r.fields, inst.fields, AllWatched(inst.nodes))
  {
    SameWatches(inst.nodes, next.nodes);
    assert inst.nodes[ts[0].node].watched <= AllWatched(inst.nodes);
    forall m | 0 <= m < |inst.nodes| && NoTokenOn(ts, m) ensures r.nodes[m] == inst.nodes[m] {
      assert ts[0].node != m;
      assert NoTokenOn(ts[1..], m);
    }
  }

  /** `render`'s loop over a run of tokens, `last` being the node of the token
      before the run. */
  function RenderSeq(inst: Instance, ts: seq<Token>, last: Option<nat>): (r: Instance)
    requires AllFit(inst.nodes, ts)
    decreases |ts|
    ensures r.reg == inst.reg
    ensures AttrsKept(inst.nodes, r.nodes) && WatchesKept(inst.nodes, r.nodes)
    ensures forall m :: 0 <= m < |inst.nodes| && NoTokenOn(ts, m) ==> r.nodes[m] == inst.nodes[m]
    ensures AgreeOff(r.fields, inst.fields, AllWatched(inst.nodes))
  {
    if |ts| == 0 then inst
    else
      var next := ApplyToken(inst, ts[0], last);
      ApplyTokenFrame(inst, ts[0], last);
      FitsKept(inst.nodes, next.nodes, ts[1..]);
      var r := RenderSeq(next, ts[1..], Some(ts[0].node));
      FrameCompose(inst, ts, next, r);
      r
  }

  /** `render()`: the whole token list in order, starting with no previous node. */
  function Render(inst: Instance): (r: Instance)
    requires Valid(inst)
    ensures Valid(r) && r.reg == inst.reg
    ensures WatchesKept(inst.nodes, r.nodes)
    ensures AgreeOff(r.fields, inst.fields, AllWatched(inst.nodes))
  {
    var r := RenderSeq(inst, inst.reg.tokens, None);
    FitsKept(inst.nodes, r.nodes, inst.reg.tokens);
    r
  }

  /** `_updateToken`: its `lastNode` is always null, so it always starts over
      from the token's snapshot. The target ends up as the snapshot with only
      this token substituted, whatever it held before. */
  function UpdateToken(inst: Instance, t: Token): (r: Instance)
    requires TokenFits(inst.nodes, t)
    ensures r.reg == inst.reg && AttrsKept(inst.nodes, r.nodes) && WatchesKept(inst.nodes, r.nodes)
    ensures forall m :: 0 <= m < |inst.nodes| && m != t.node ==> r.nodes[m] == inst.nodes[m]
    ensures AgreeOff(r.fields, inst.fields, inst.nodes[t.node].watched)
    ensures t.attr.None? ==>
              r.nodes[t.node].text == ReplaceFirst(t.initialValue, t.raw, FieldText(inst.fields, t.Key()))
    ensures t.attr.Some? ==>
              GetAttribute(r.nodes[t.node].attrs, t.attr.value)
                == Some(ReplaceFirst(t.initialValue, t.raw, FieldText(inst.fields, t.Key())))
  {
    ApplyTokenFrame(inst, t, None);
    ApplyTokenTarget(inst, t, None);
    ApplyToken(inst, t, None)
  }
}
