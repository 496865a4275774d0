/** The constructor of the class `register` defines (endemic.js:148-177),
    without the shadow root and the observer hookup. */
module Instantiation {
  import opened Wrappers
  import opened Dom
  import opened TokenIndex
  import opened Discovery
  import opened Component

  datatype ChildKind = Element | Script | NonElement

  /** A child node of the template definition: an `HTMLElement` that is not an
      `HTMLScriptElement`, an `HTMLScriptElement`, or any other child node,
      including text, comments and SVG or MathML elements. */
  datatype Child = Child(kind: ChildKind, text: string, attrs: seq<Attr>)

  /** The loop's filter: only `HTMLElement` children that are not scripts are
      cloned into the instance, in child order. */
  function Instantiate(children: seq<Child>): (r: seq<Node>)
    ensures forall i :: 0 <= i < |r| ==> Child(Element, r[i].text, r[i].attrs) in children && r[i].watched == {}
    ensures forall c :: c in children && c.kind == Element ==> Node(c.text, c.attrs, {}) in r
  {
    if |children| == 0 then []
    else
      var c := children[0];
      var rest := Instantiate(children[1..]);
      var here := if c.kind == Element then [Node(c.text, c.attrs, {})] else [];
      var r := here + rest;
      forall i | 0 <= i < |r| ensures Child(Element, r[i].text, r[i].attrs) in children && r[i].watched == {} {
        if i >= |here| {
          assert r[i] == rest[i - |here|];
          assert Child(Element, r[i].text, r[i].attrs) in children[1..];
        }
      }
      forall c' | c' in children && c'.kind == Element ensures Node(c'.text, c'.attrs, {}) in r {
        if c' != c {
          assert c' in children[1..];
        }
      }
      r
  }

  lemma {:induction false} GetAttributeAppend(attrs: seq<Attr>, a: Attr, k: string)
    requires k != a.name
    ensures GetAttribute(attrs + [a], k) == GetAttribute(attrs, k)
  {
    if |attrs| > 0 {
      assert (attrs + [a])[1..] == attrs[1..] + [a];
      GetAttributeAppend(attrs[1..], a, k);
    }
  }

  /** Cloning goes child by child: the clones of a list of children are
      those of its first part followed by those of the rest. */
  lemma {:induction false} InstantiateAppend(a: seq<Child>, b: seq<Child>)
    ensures Instantiate(a + b) == Instantiate(a) + Instantiate(b)
    decreases |a|
  {
    if |a| == 0 {
      assert a + b == b;
    } else {
      assert (a + b)[0] == a[0] && (a + b)[1..] == a[1..] + b;
      InstantiateAppend(a[1..], b);
    }
  }

  /** A single child yields one fresh clone when it is an element other than
      a script, and nothing otherwise. */
  lemma InstantiateOne(c: Child)
    ensures Instantiate([c]) == if c.kind == Element then [Node(c.text, c.attrs, {})] else []
  {
    assert [c][1..] == [];
  }

  lemma HasAttributeAppend(attrs: seq<Attr>, a: Attr, k: string)
    ensures HasAttribute(attrs + [a], k) <==> HasAttribute(attrs, k) || k == a.name
  {
    var s := attrs + [a];
    if HasAttribute(attrs, k) {
      var i :| 0 <= i < |attrs| && attrs[i].name == k;
      assert s[i] == attrs[i];
    }
    if k == a.name {
      assert s[|attrs|] == a;
    }
    if HasAttribute(s, k) && k != a.name {
      var i :| 0 <= i < |s| && s[i].name == k;
      assert attrs[i] == s[i];
    }
  }

  /** The constructor's first loop: each host attribute, in order, becomes
      the field of the same name. */
  function Seed(host: seq<Attr>): Fields {
    if |host| == 0 then map[]
    else
      var a := host[|host| - 1];
      Seed(host[..|host| - 1])[a.name := Some(a.value)]
  }

  /** The seeded fields are exactly the host's attributes: one field per
      attribute name, holding what `getAttribute` reads for it. */
  lemma {:induction false} SeedReadsHost(host: seq<Attr>)
    ensures forall k :: k in Seed(host) <==> HasAttribute(host, k)
    ensures UniqueNames(host) ==> forall k :: k in Seed(host) ==> Seed(host)[k] == GetAttribute(host, k)
  {
    if |host| > 0 {
      var init := host[..|host| - 1];
      var a := host[|host| - 1];
      SeedReadsHost(init);
      var r := Seed(host);
      assert host == init + [a];
      forall k ensures k in r <==> HasAttribute(host, k) {
        HasAttributeAppend(init, a, k);
      }
      if UniqueNames(host) {
        assert UniqueNames(init) by {
          forall i, j | 0 <= i < j < |init| ensures init[i].name != init[j].name {
            assert init[i] == host[i] && init[j] == host[j];
          }
        }
        forall k | k in r ensures r[k] == GetAttribute(host, k) {
          if k == a.name {
            assert IsFirstNamed(host, k, |host| - 1);
          } else {
            GetAttributeAppend(init, a, k);
          }
        }
      }
    }
  }

  /** `new` on the registered class: seed the fields from the host's
      attributes, clone the eligible children, discover their tokens (which
      also installs the `setAttribute` wrappers), then `render()`. */
  function Construct(host: seq<Attr>, children: seq<Child>): (r: Instance)
    ensures Valid(r) && Consistent(r.reg)
    ensures r.reg.tokens == AllTokens(Watch(Instantiate(children)), 0)
    ensures |r.nodes| == |Instantiate(children)|
    ensures forall n :: 0 <= n < |r.nodes| ==> r.nodes[n].watched == WatchedNames(Instantiate(children)[n].attrs)
    ensures AgreeOff(r.fields, Seed(host), AllWatched(Watch(Instantiate(children))))
  {
    var nodes := Watch(Instantiate(children));
    var inst := Instance(Seed(host), nodes, Discover(nodes));
    DiscoveredFit(nodes);
    var r := Render(inst);
    assert forall n :: 0 <= n < |r.nodes| ==> r.nodes[n].watched == nodes[n].watched;
    r
  }

  /** Discovered tokens fit the nodes they were discovered on. */
  lemma DiscoveredFit(nodes: seq<Node>)
    ensures AllFit(nodes, AllTokens(nodes, 0))
  {
    var ts := AllTokens(nodes, 0);
    forall i | 0 <= i < |ts| ensures TokenFits(nodes, ts[i]) {
      if ts[i].attr.Some? {
        var attrs := nodes[ts[i].node].attrs;
        var j :| 0 <= j < |attrs| && attrs[j] == Attr(ts[i].attr.value, ts[i].initialValue);
      }
    }
  }
}
