/** `_discoverTokens` (endemic.js:46-85) and the constructor loop that runs it
    over the template's element children (endemic.js:160-171). */
module Discovery {
  import opened Wrappers
  import opened Scanner
  import opened Strings
  import opened Dom
  import opened TokenIndex

  /** One token per matched text, all found at the same place. */
  function Tokenize(n: nat, attr: Option<string>, raws: seq<TokenText>, init: string): (r: seq<Token>)
    ensures |r| == |raws|
    ensures forall k :: 0 <= k < |r| ==> r[k] == Token(n, attr, raws[k], init)
  {
    seq(|raws|, k requires 0 <= k < |raws| => Token(n, attr, raws[k], init))
  }

  /** The text content is scanned after its first escaped brace is deleted,
      but every token keeps the full text, escape included, as its snapshot. */
  function TextTokens(n: nat, text: string): (r: seq<Token>)
    ensures |r| == |Scan(StripFirstEscape(text))|
    ensures forall k :: 0 <= k < |r| ==>
              && r[k].node == n && r[k].attr.None? && r[k].initialValue == text
              && r[k].raw == Scan(StripFirstEscape(text))[k]
  {
    Tokenize(n, None, Scan(StripFirstEscape(text)), text)
  }

  /** Attribute values are scanned as they are, attribute by attribute. */
  function AttrTokens(n: nat, attrs: seq<Attr>): (r: seq<Token>)
    ensures forall i :: 0 <= i < |r| ==> r[i].node == n && r[i].attr.Some?
    ensures forall i :: 0 <= i < |r| ==>
              r[i].attr.Some? && Attr(r[i].attr.value, r[i].initialValue) in attrs
              && r[i].raw in Scan(r[i].initialValue)
  {
    if |attrs| == 0 then []
    else
      var a := attrs[0];
      var here := Tokenize(n, Some(a.name), Scan(a.value), a.value);
      var rest := AttrTokens(n, attrs[1..]);
      AttrTokensStep(n, attrs, here, rest);
      here + rest
  }

  /** Putting the first attribute's tokens in front of the tokens of the other
      attributes keeps every token tied to an attribute of the whole list. */
  lemma AttrTokensStep(n: nat, attrs: seq<Attr>, here: seq<Token>, rest: seq<Token>)
    requires |attrs| > 0
    requires forall k :: 0 <= k < |here| ==>
               here[k].node == n && here[k].attr == Some(attrs[0].name) && here[k].initialValue == attrs[0].value
               && here[k].raw in Scan(attrs[0].value)
    requires forall i :: 0 <= i < |rest| ==> rest[i].node == n && rest[i].attr.Some?
    requires forall i :: 0 <= i < |rest| ==>
               rest[i].attr.Some? && Attr(rest[i].attr.value, rest[i].initialValue) in attrs[1..]
               && rest[i].raw in Scan(rest[i].initialValue)
    ensures forall i :: 0 <= i < |here + rest| ==> (here + rest)[i].node == n && (here + rest)[i].attr.Some?
    ensures forall i :: 0 <= i < |here + rest| ==>
              (here + rest)[i].attr.Some? && Attr((here + rest)[i].attr.value, (here + rest)[i].initialValue) in attrs
              && (here + rest)[i].raw in Scan((here + rest)[i].initialValue)
  {
    var r := here + rest;
    forall i | 0 <= i < |r|
      ensures r[i].node == n && r[i].attr.Some? && Attr(r[i].attr.value, r[i].initialValue) in attrs
              && r[i].raw in Scan(r[i].initialValue)
    {
      if i < |here| {
        assert r[i] == here[i];
        assert attrs[0] == Attr(r[i].attr.value, r[i].initialValue);
      } else {
        assert r[i] == rest[i - |here|];
        assert Attr(r[i].attr.value, r[i].initialValue) in attrs[1..];
      }
    }
  }

  /** Attributes are tokenized one after the other: the tokens of a list of
      attributes are those of its first part followed by those of the rest. */
  lemma {:induction false} AttrTokensAppend(n: nat, a: seq<Attr>, b: seq<Attr>)
    ensures AttrTokens(n, a + b) == AttrTokens(n, a) + AttrTokens(n, b)
    decreases |a|
  {
    if |a| == 0 {
      assert a + b == b;
    } else {
      var here := Tokenize(n, Some(a[0].name), Scan(a[0].value), a[0].value);
      calc {
        AttrTokens(n, a + b);
      == { assert (a + b)[0] == a[0] && (a + b)[1..] == a[1..] + b; AttrTokensFront(n, a + b); }
        here + AttrTokens(n, a[1..] + b);
      == { AttrTokensAppend(n, a[1..], b); }
        here + (AttrTokens(n, a[1..]) + AttrTokens(n, b));
      ==
        (here + AttrTokens(n, a[1..])) + AttrTokens(n, b);
      == { AttrTokensFront(n, a); }
        AttrTokens(n, a) + AttrTokens(n, b);
      }
    }
  }

  /** The tokens of a non-empty attribute list are its first attribute's
      matches followed by the tokens of the other attributes. */
  lemma AttrTokensFront(n: nat, attrs: seq<Attr>)
    requires |attrs| > 0
    ensures AttrTokens(n, attrs)
            == Tokenize(n, Some(attrs[0].name), Scan(attrs[0].value), attrs[0].value) + AttrTokens(n, attrs[1..])
  {
  }

  /** One attribute yields one token per match of its value, in match order,
      each naming the attribute and keeping the whole value as its snapshot. */
  lemma AttrTokensOne(n: nat, x: Attr)
    ensures var r := AttrTokens(n, [x]);
            && |r| == |Scan(x.value)|
            && forall k :: 0 <= k < |r| ==>
                 r[k].node == n && r[k].attr == Some(x.name) && r[k].initialValue == x.value
                 && r[k].raw == Scan(x.value)[k]
  {
    assert [x][1..] == [];
    assert AttrTokens(n, [x]) == Tokenize(n, Some(x.name), Scan(x.value), x.value) + [];
  }

  /** Everything `_discoverTokens` pushes for one node, in push order: the
      text's tokens first, then each attribute's in attribute order. */
  function NodeTokens(n: nat, node: Node): (r: seq<Token>)
    ensures r == TextTokens(n, node.text) + AttrTokens(n, node.attrs)
    ensures forall i :: 0 <= i < |r| ==> r[i].node == n
    ensures forall i :: 0 <= i < |r| && r[i].attr.None? ==>
              r[i].initialValue == node.text && r[i].raw in Scan(StripFirstEscape(node.text))
    ensures forall i :: 0 <= i < |r| && r[i].attr.Some? ==>
              Attr(r[i].attr.value, r[i].initialValue) in node.attrs && r[i].raw in Scan(r[i].initialValue)
    ensures forall i, j :: 0 <= i < j < |r| && r[i].attr.Some? ==> r[j].attr.Some?
  {
    var text := TextTokens(n, node.text);
    var attrs := AttrTokens(n, node.attrs);
    var r := text + attrs;
    forall i | 0 <= i < |r|
      ensures r[i].node == n
      ensures r[i].attr.Some? <==> i >= |text|
      ensures r[i].attr.None? ==>
                r[i].initialValue == node.text && r[i].raw in Scan(StripFirstEscape(node.text))
      ensures r[i].attr.Some? ==>
                Attr(r[i].attr.value, r[i].initialValue) in node.attrs && r[i].raw in Scan(r[i].initialValue)
    {
      if i < |text| {
        assert r[i] == text[i];
        assert r[i].raw == Scan(StripFirstEscape(node.text))[i];
      } else {
        assert r[i] == attrs[i - |text|];
      }
    }
    r
  }

  /** The attribute names `_discoverTokens` puts a watch on: those with a
      match equal to the whole value. */
  function WatchedNames(attrs: seq<Attr>): (r: set<string>)
    ensures forall x :: x in r ==> HasAttribute(attrs, x)
  {
    set i | 0 <= i < |attrs| && attrs[i].value in Scan(attrs[i].value) :: attrs[i].name
  }

  /** A name is watched exactly when some attribute of that name holds one
      token and nothing else. */
  lemma WatchedIffWholeToken(attrs: seq<Attr>, name: string)
    ensures name in WatchedNames(attrs) <==>
              exists i :: 0 <= i < |attrs| && attrs[i].name == name && IsTokenText(attrs[i].value)
  {
    forall i | 0 <= i < |attrs| {
      WholeValueIsToken(attrs[i].value);
    }
  }

  /** Discovery over the instance's nodes, from node `lo` on. */
  function AllTokens(nodes: seq<Node>, lo: nat): (r: seq<Token>)
    decreases |nodes| - lo
    ensures forall i :: 0 <= i < |r| ==> lo <= r[i].node < |nodes|
    ensures forall i, j :: 0 <= i <= j < |r| ==> r[i].node <= r[j].node
    ensures forall i :: 0 <= i < |r| && r[i].attr.None? ==> r[i].initialValue == nodes[r[i].node].text
    ensures forall i :: 0 <= i < |r| && r[i].attr.Some? ==>
              Attr(r[i].attr.value, r[i].initialValue) in nodes[r[i].node].attrs
  {
    if lo >= |nodes| then []
    else
      var here := NodeTokens(lo, nodes[lo]);
      var rest := AllTokens(nodes, lo + 1);
      var r := here + rest;
      forall i | 0 <= i < |r| ensures lo <= r[i].node < |nodes| && (r[i].node == lo <==> i < |here|) {
        if i < |here| {
          assert r[i] == here[i];
        } else {
          assert r[i] == rest[i - |here|];
        }
      }
      r
  }

  /** The tokens of one node sit next to each other in the token list. */
  lemma TokensContiguous(nodes: seq<Node>, i: nat, j: nat, k: nat)
    requires i <= j <= k < |AllTokens(nodes, 0)|
    requires AllTokens(nodes, 0)[i].node == AllTokens(nodes, 0)[k].node
    ensures AllTokens(nodes, 0)[j].node == AllTokens(nodes, 0)[i].node
  {
  }

  /** The tokens of a list that sit on node `m`, in list order. */
  function OnNode(ts: seq<Token>, m: nat): (r: seq<Token>)
    ensures forall t :: t in r <==> t in ts && t.node == m
  {
    if |ts| == 0 then []
    else (if ts[0].node == m then [ts[0]] else []) + OnNode(ts[1..], m)
  }

  lemma {:induction false} OnNodeAppend(a: seq<Token>, b: seq<Token>, m: nat)
    ensures OnNode(a + b, m) == OnNode(a, m) + OnNode(b, m)
    decreases |a|
  {
    if |a| == 0 {
      assert a + b == b;
    } else {
      assert (a + b)[0] == a[0] && (a + b)[1..] == a[1..] + b;
      OnNodeAppend(a[1..], b, m);
    }
  }

  lemma {:induction false} OnNodeAll(ts: seq<Token>, m: nat)
    requires forall i :: 0 <= i < |ts| ==> ts[i].node == m
    ensures OnNode(ts, m) == ts
    decreases |ts|
  {
    if |ts| > 0 {
      OnNodeAll(ts[1..], m);
    }
  }

  lemma {:induction false} OnNodeNone(ts: seq<Token>, m: nat)
    requires forall i :: 0 <= i < |ts| ==> ts[i].node != m
    ensures OnNode(ts, m) == []
    decreases |ts|
  {
    if |ts| > 0 {
      OnNodeNone(ts[1..], m);
    }
  }

  /** Discovery misses nothing and reorders nothing: the tokens listed for
      node `m` are exactly what `_discoverTokens` pushes for it, in push
      order, and nodes before `lo` get none. Together with the node order of
      `AllTokens` this fixes the whole list. */
  lemma {:induction false} AllTokensPerNode(nodes: seq<Node>, lo: nat, m: nat)
    requires m < |nodes|
    ensures OnNode(AllTokens(nodes, lo), m) == if lo <= m then NodeTokens(m, nodes[m]) else []
    decreases |nodes| - lo
  {
    if lo < |nodes| {
      var here := NodeTokens(lo, nodes[lo]);
      var rest := AllTokens(nodes, lo + 1);
      assert AllTokens(nodes, lo) == here + rest;
      OnNodeSplit(here, rest, lo, m);
      AllTokensPerNode(nodes, lo + 1, m);
    }
  }

  /** One node's tokens followed by tokens of later nodes. */
  lemma OnNodeSplit(here: seq<Token>, rest: seq<Token>, lo: nat, m: nat)
    requires forall i :: 0 <= i < |here| ==> here[i].node == lo
    requires forall i :: 0 <= i < |rest| ==> rest[i].node > lo
    ensures OnNode(here + rest, m) == if m == lo then here else if m < lo then [] else OnNode(rest, m)
  {
    OnNodeAppend(here, rest, m);
    if m == lo {
      OnNodeAll(here, m);
      OnNodeNone(rest, m);
    } else {
      OnNodeNone(here, m);
      if m < lo {
        OnNodeNone(rest, m);
      }
    }
  }

  /** The interception `_discoverTokens` installs on each node. */
  function Watch(nodes: seq<Node>): (r: seq<Node>)
    ensures |r| == |nodes|
    ensures forall n :: 0 <= n < |nodes| ==>
              r[n] == Node(nodes[n].text, nodes[n].attrs, WatchedNames(nodes[n].attrs))
  {
    seq(|nodes|, n requires 0 <= n < |nodes| => nodes[n].(watched := WatchedNames(nodes[n].attrs)))
  }

  /** After discovery each node intercepts exactly the names of its
      attributes that hold one whole token, keeps its text and attributes,
      and running discovery's interception again changes nothing. */
  lemma WatchIntercepts(nodes: seq<Node>, n: nat, name: string)
    requires n < |nodes|
    ensures Watch(nodes)[n].text == nodes[n].text && Watch(nodes)[n].attrs == nodes[n].attrs
    ensures name in Watch(nodes)[n].watched <==>
              exists i :: 0 <= i < |nodes[n].attrs| && nodes[n].attrs[i].name == name
                          && IsTokenText(nodes[n].attrs[i].value)
    ensures Watch(Watch(nodes)) == Watch(nodes)
  {
    WatchedIffWholeToken(nodes[n].attrs, name);
  }

  /** The registry the constructor loop builds: every node's tokens pushed
      in node order, with a consistent index. */
  function Discover(nodes: seq<Node>): (r: Registry)
    ensures r.tokens == AllTokens(nodes, 0)
    ensures Consistent(r)
  {
    PushAll(Empty, AllTokens(nodes, 0))
  }
}
