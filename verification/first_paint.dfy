/** What the first `render()` of a new instance leaves in a node's text:
    the snapshot with each of the node's text tokens substituted in turn. */
module FirstPaint {
  import opened Wrappers
  import opened Scanner
  import opened Strings
  import opened Dom
  import opened TokenIndex
  import opened Discovery
  import opened Component
  import opened Instantiation

  /** Substitute each raw token, first occurrence only, one after the other. */
  function FoldReplace(s: string, raws: seq<TokenText>, fields: Fields): string
    decreases |raws|
  {
    if |raws| == 0 then s
    else FoldReplace(ReplaceFirst(s, raws[0], FieldText(fields, KeyOf(raws[0]))), raws[1..], fields)
  }

  function Raws(ts: seq<Token>): (r: seq<TokenText>)
    ensures |r| == |ts| && forall i :: 0 <= i < |ts| ==> r[i] == ts[i].raw
  {
    seq(|ts|, i requires 0 <= i < |ts| => ts[i].raw)
  }

  lemma RawsTail(ts: seq<Token>)
    requires |ts| > 0
    ensures Raws(ts)[0] == ts[0].raw && Raws(ts)[1..] == Raws(ts[1..])
  {
    assert Raws(ts)[1..] == Raws(ts[1..]);
  }

  /** The node `render` remembers after a run of tokens. */
  function LastNode(ts: seq<Token>, last: Option<nat>): Option<nat> {
    if |ts| == 0 then last else Some(ts[|ts| - 1].node)
  }

  lemma FitSplit(nodes: seq<Node>, a: seq<Token>, b: seq<Token>)
    requires AllFit(nodes, a + b)
    ensures AllFit(nodes, a) && AllFit(nodes, b)
  {
    assert forall i :: 0 <= i < |a| ==> a[i] == (a + b)[i];
    assert forall i :: 0 <= i < |b| ==> b[i] == (a + b)[|a| + i];
  }

  /** `render`'s loop, one token at a time. */
  lemma RenderStep(inst: Instance, ts: seq<Token>, last: Option<nat>)
    requires AllFit(inst.nodes, ts) && |ts| > 0
    ensures var next := ApplyToken(inst, ts[0], last);
            && AttrsKept(inst.nodes, next.nodes)
            && AllFit(next.nodes, ts[1..])
            && RenderSeq(inst, ts, last) == RenderSeq(next, ts[1..], Some(ts[0].node))
  {
    var next := ApplyToken(inst, ts[0], last);
    ApplyTokenFrame(inst, ts[0], last);
    FitsKept(inst.nodes, next.nodes, ts[1..]);
  }

  /** Rendering a list in two pieces, the second starting from the node the
      first ended on, is rendering it whole. */
  lemma {:induction false} RenderSeqSplit(inst: Instance, a: seq<Token>, b: seq<Token>, last: Option<nat>)
    requires AllFit(inst.nodes, a + b)
    ensures AllFit(inst.nodes, a)
    ensures AllFit(RenderSeq(inst, a, last).nodes, b)
    ensures RenderSeq(inst, a + b, last) == RenderSeq(RenderSeq(inst, a, last), b, LastNode(a, last))
    decreases |a|, 1
  {
    FitSplit(inst.nodes, a, b);
    FitsKept(inst.nodes, RenderSeq(inst, a, last).nodes, b);
    if |a| > 0 {
      RenderSeqSplitStep(inst, a, b, last);
    } else {
      assert a + b == b;
    }
  }

  /** The same, for a non-empty first piece: take its first step, then split
      the rest. */
  lemma {:induction false} RenderSeqSplitStep(inst: Instance, a: seq<Token>, b: seq<Token>, last: Option<nat>)
    requires AllFit(inst.nodes, a + b) && |a| > 0
    requires AllFit(inst.nodes, a) && AllFit(RenderSeq(inst, a, last).nodes, b)
    ensures RenderSeq(inst, a + b, last) == RenderSeq(RenderSeq(inst, a, last), b, LastNode(a, last))
    decreases |a|, 0
  {
    assert (a + b)[0] == a[0];
    assert (a + b)[1..] == a[1..] + b;
    RenderStep(inst, a + b, last);
    RenderStep(inst, a, last);
    RenderSeqSplit(ApplyToken(inst, a[0], last), a[1..], b, Some(a[0].node));
    assert |a| > 1 ==> a[1..][|a[1..]| - 1] == a[|a| - 1];
  }

  /** The first step of such a run. */
  lemma TextStep(inst: Instance, ts: seq<Token>, n: nat, v: string, last: Option<nat>)
    requires n < |inst.nodes| && AllFit(inst.nodes, ts) && |ts| > 0
    requires forall i :: 0 <= i < |ts| ==> ts[i].node == n && ts[i].attr.None? && ts[i].initialValue == v
    requires last != Some(n) ==> inst.nodes[n].text == v
    ensures var next := ApplyToken(inst, ts[0], last);
            && n < |next.nodes| && AllFit(next.nodes, ts[1..]) && next.fields == inst.fields
            && next.nodes[n].text == ReplaceFirst(inst.nodes[n].text, ts[0].raw, FieldText(inst.fields, KeyOf(ts[0].raw)))
            && RenderSeq(inst, ts, last) == RenderSeq(next, ts[1..], Some(n))
  {
    var next := ApplyToken(inst, ts[0], last);
    ApplyTokenFrame(inst, ts[0], last);
    ApplyTokenTarget(inst, ts[0], last);
    FitsKept(inst.nodes, next.nodes, ts[1..]);
  }

  /** A run of text tokens on node `n` that starts from the node's snapshot
      (or continues on the same node) leaves the snapshot with each token
      substituted in order, and changes no field. */
  lemma {:induction false} TextRun(inst: Instance, ts: seq<Token>, n: nat, v: string, last: Option<nat>)
    requires n < |inst.nodes| && AllFit(inst.nodes, ts)
    requires forall i :: 0 <= i < |ts| ==> ts[i].node == n && ts[i].attr.None? && ts[i].initialValue == v
    requires last != Some(n) ==> inst.nodes[n].text == v
    ensures RenderSeq(inst, ts, last).nodes[n].text == FoldReplace(inst.nodes[n].text, Raws(ts), inst.fields)
    ensures RenderSeq(inst, ts, last).fields == inst.fields
    decreases |ts|
  {
    if |ts| > 0 {
      TextStep(inst, ts, n, v, last);
      var next := ApplyToken(inst, ts[0], last);
      TextRun(next, ts[1..], n, v, Some(n));
      RawsTail(ts);
    }
  }

  /** Tokens that are on other nodes, or in attributes, leave node `n`'s
      text as it is. */
  lemma {:induction false} TextUntouched(inst: Instance, ts: seq<Token>, n: nat, last: Option<nat>)
    requires n < |inst.nodes| && AllFit(inst.nodes, ts)
    requires NoTextOn(ts, n)
    ensures RenderSeq(inst, ts, last).nodes[n].text == inst.nodes[n].text
    decreases |ts|
  {
    if |ts| > 0 {
      var next := ApplyToken(inst, ts[0], last);
      ApplyTokenFrame(inst, ts[0], last);
      FitsKept(inst.nodes, next.nodes, ts[1..]);
      TextUntouched(next, ts[1..], n, Some(ts[0].node));
    }
  }

  /** Two field bags that read the same for every key used give the same
      substitution. */
  lemma {:induction false} FoldReplaceAgree(s: string, raws: seq<TokenText>, f: Fields, g: Fields)
    requires forall i :: 0 <= i < |raws| ==> FieldText(f, KeyOf(raws[i])) == FieldText(g, KeyOf(raws[i]))
    ensures FoldReplace(s, raws, f) == FoldReplace(s, raws, g)
    decreases |raws|
  {
    if |raws| > 0 {
      FoldReplaceAgree(ReplaceFirst(s, raws[0], FieldText(f, KeyOf(raws[0]))), raws[1..], f, g);
    }
  }

  lemma UnfoldAllTokens(nodes: seq<Node>, lo: nat)
    requires lo < |nodes|
    ensures AllTokens(nodes, lo) == NodeTokens(lo, nodes[lo]) + AllTokens(nodes, lo + 1)
  {
  }

  lemma UnfoldNodeTokens(n: nat, node: Node)
    ensures NodeTokens(n, node) == TextTokens(n, node.text) + AttrTokens(n, node.attrs)
  {
  }

  lemma LaterNoText(nodes: seq<Node>, n: nat)
    ensures NoTextOn(AllTokens(nodes, n + 1), n)
  {
  }

  lemma AttrNoText(n: nat, attrs: seq<Attr>)
    ensures NoTextOn(AttrTokens(n, attrs), n)
  {
  }

  /** The keys of the text tokens of `text`, none of them in `w`. */
  ghost predicate TextKeysOutside(text: string, w: set<string>) {
    var raws := Scan(StripFirstEscape(text));
    forall i :: 0 <= i < |raws| ==> KeyOf(raws[i]) !in w
  }

  /** Fields that differ only on watched names substitute the same into a
      text none of whose keys is watched. */
  lemma UnwatchedAgree(v: string, f: Fields, g: Fields, w: set<string>)
    requires AgreeOff(f, g, w) && TextKeysOutside(v, w)
    ensures FoldReplace(v, Scan(StripFirstEscape(v)), f) == FoldReplace(v, Scan(StripFirstEscape(v)), g)
  {
    var raws := Scan(StripFirstEscape(v));
    forall i | 0 <= i < |raws| ensures FieldText(f, KeyOf(raws[i])) == FieldText(g, KeyOf(raws[i])) {
      assert KeyOf(raws[i]) !in w;
    }
    FoldReplaceAgree(v, raws, f, g);
  }

  /** Rendering from node `n`'s own tokens on: its text tokens substitute
      into the snapshot, and nothing after them touches the text again. */
  lemma PaintHere(inst: Instance, nodes: seq<Node>, n: nat, last: Option<nat>)
    requires n < |nodes| && n < |inst.nodes|
    requires AllFit(inst.nodes, AllTokens(nodes, n))
    requires inst.nodes[n].text == nodes[n].text && last != Some(n)
    ensures RenderSeq(inst, AllTokens(nodes, n), last).nodes[n].text
              == FoldReplace(nodes[n].text, Scan(StripFirstEscape(nodes[n].text)), inst.fields)
  {
    var v := nodes[n].text;
    var here := NodeTokens(n, nodes[n]);
    var after := AllTokens(nodes, n + 1);
    UnfoldAllTokens(nodes, n);
    RenderSeqSplit(inst, here, after, last);
    var s1 := RenderSeq(inst, here, last);
    var tg := TextTokens(n, v);
    var ag := AttrTokens(n, nodes[n].attrs);
    UnfoldNodeTokens(n, nodes[n]);
    RenderSeqSplit(inst, tg, ag, last);
    var s0 := RenderSeq(inst, tg, last);
    TextRun(inst, tg, n, v, last);
    AttrNoText(n, nodes[n].attrs);
    TextUntouched(s0, ag, n, LastNode(tg, last));
    LaterNoText(nodes, n);
    TextUntouched(s1, after, n, LastNode(here, last));
    assert Raws(tg) == Scan(StripFirstEscape(v));
  }

  /** Every token discovered from node `lo` on fits the nodes it was
      discovered on. */
  lemma DiscoveredFitFrom(nodes: seq<Node>, lo: nat)
    ensures AllFit(nodes, AllTokens(nodes, lo))
  {
    var ts := AllTokens(nodes, lo);
    forall i | 0 <= i < |ts| ensures TokenFits(nodes, ts[i]) {
      if ts[i].attr.Some? {
        var attrs := nodes[ts[i].node].attrs;
        var j :| 0 <= j < |attrs| && attrs[j] == Attr(ts[i].attr.value, ts[i].initialValue);
      }
    }
  }

  /** Rendering an earlier node's tokens leaves node `n` alone and keeps
      every unwatched field; `s1` is the instance they leave behind and `l1`
      the node they end on. */
  lemma PaintEarlier(inst: Instance, nodes: seq<Node>, lo: nat, n: nat, last: Option<nat>)
    returns (s1: Instance, l1: Option<nat>)
    requires lo < n < |nodes| && |inst.nodes| == |nodes| && AttrsKept(nodes, inst.nodes)
    requires last != Some(n)
    ensures |s1.nodes| == |nodes| && AttrsKept(nodes, s1.nodes)
    ensures AllFit(inst.nodes, AllTokens(nodes, lo)) && AllFit(s1.nodes, AllTokens(nodes, lo + 1))
    ensures RenderSeq(inst, AllTokens(nodes, lo), last) == RenderSeq(s1, AllTokens(nodes, lo + 1), l1)
    ensures s1.nodes[n] == inst.nodes[n] && l1 != Some(n)
    ensures AllWatched(s1.nodes) == AllWatched(inst.nodes)
    ensures AgreeOff(s1.fields, inst.fields, AllWatched(inst.nodes))
  {
    var here := NodeTokens(lo, nodes[lo]);
    var rest := AllTokens(nodes, lo + 1);
    DiscoveredFitFrom(nodes, lo);
    FitsKept(nodes, inst.nodes, AllTokens(nodes, lo));
    UnfoldAllTokens(nodes, lo);
    RenderSeqSplit(inst, here, rest, last);
    s1 := RenderSeq(inst, here, last);
    l1 := LastNode(here, last);
    assert NoTokenOn(here, n);
    SameWatches(inst.nodes, s1.nodes);
    if |here| > 0 {
      assert here[|here| - 1].node == lo;
    }
  }

  /** Rendering the tokens of nodes `lo` onwards, for `n` at or after `lo`
      whose text is still its snapshot: node `n` ends with its snapshot
      substituted token by token, from fields that equal the starting ones on
      every key it uses. */
  lemma PaintThrough(inst: Instance, nodes: seq<Node>, lo: nat, n: nat, last: Option<nat>)
    requires lo <= n < |nodes| && |inst.nodes| == |nodes| && AttrsKept(nodes, inst.nodes)
    requires inst.nodes[n].text == nodes[n].text && last != Some(n)
    requires TextKeysOutside(nodes[n].text, AllWatched(inst.nodes))
    ensures AllFit(inst.nodes, AllTokens(nodes, lo))
    ensures RenderSeq(inst, AllTokens(nodes, lo), last).nodes[n].text
              == FoldReplace(nodes[n].text, Scan(StripFirstEscape(nodes[n].text)), inst.fields)
    decreases n - lo
  {
    if lo == n {
      DiscoveredFitFrom(nodes, lo);
      FitsKept(nodes, inst.nodes, AllTokens(nodes, lo));
      PaintHere(inst, nodes, n, last);
    } else {
      var s1, l1 := PaintEarlier(inst, nodes, lo, n, last);
      PaintThrough(s1, nodes, lo + 1, n, l1);
      UnwatchedAgree(nodes[n].text, s1.fields, inst.fields, AllWatched(inst.nodes));
    }
  }

  /** First paint of a node's text: `render` resets it to its snapshot and
      applies its text tokens in scan order, each to the first remaining
      occurrence of its raw text, reading the fields the instance started
      with. Keys that are watched attribute names are excluded because
      `render` itself may rewrite those fields through the `setAttribute`
      wrapper on an earlier node. */
  lemma FirstPaintText(fields: Fields, nodes: seq<Node>, n: nat)
    requires n < |nodes| && TextKeysOutside(nodes[n].text, AllWatched(nodes))
    requires AllFit(nodes, AllTokens(nodes, 0))
    ensures Render(Instance(fields, nodes, Discover(nodes))).nodes[n].text
              == FoldReplace(nodes[n].text, Scan(StripFirstEscape(nodes[n].text)), fields)
  {
    PaintThrough(Instance(fields, nodes, Discover(nodes)), nodes, 0, n, None);
  }

  /** The same for a freshly constructed instance. */
  lemma ConstructFirstPaintText(host: seq<Attr>, children: seq<Child>, n: nat)
    requires n < |Instantiate(children)|
    requires var nodes := Watch(Instantiate(children)); TextKeysOutside(nodes[n].text, AllWatched(nodes))
    ensures var text := Instantiate(children)[n].text;
            Construct(host, children).nodes[n].text == FoldReplace(text, Scan(StripFirstEscape(text)), Seed(host))
  {
    var nodes := Watch(Instantiate(children));
    DiscoveredFit(nodes);
    FirstPaintText(Seed(host), nodes, n);
  }
}
