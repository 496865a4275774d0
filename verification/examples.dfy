/** Worked instances of the model on concrete templates. */
module Examples {
  import opened Wrappers
  import opened Scanner
  import opened Strings
  import opened Dom
  import opened TokenIndex
  import opened Discovery
  import opened Component
  import opened Instantiation
  import opened FirstPaint

  /** A text without backslashes has nothing to unescape. */
  lemma NoBackslash(s: string)
    requires forall k :: 0 <= k < |s| ==> s[k] != '\\'
    ensures StripFirstEscape(s) == s
  {
    forall j: nat ensures !IsEscapeAt(s, j) {
      if j < |s| {
        assert s[j] != '\\';
      }
    }
  }

  /** Replacing a pattern whose first character does not appear before `i`. */
  lemma ReplaceAt(s: string, p: string, v: string, i: nat)
    requires |p| > 0 && OccursAt(s, p, i)
    requires forall k :: 0 <= k < i ==> s[k] != p[0]
    ensures ReplaceFirst(s, p, v) == s[..i] + v + s[i + |p|..]
  {
    forall k: nat | k < i ensures !OccursAt(s, p, k) {
      if k + |p| <= |s| {
        assert s[k..k + |p|][0] == s[k];
      }
    }
  }

  /** A text that is exactly the pattern is replaced whole. */
  lemma ReplaceWhole(t: string, v: string)
    requires |t| > 0
    ensures ReplaceFirst(t, t, v) == v
  {
    ReplaceAt(t, t, v, 0);
    assert t[..0] + v + t[|t|..] == v;
  }

  /** The spans of `"${a} ${b}"`: the first token, then the search resumes
      after it. */
  lemma FirstSpan()
    ensures Spans("${a} ${b}", 0) == [(0, 4)] + Spans("${a} ${b}", 4)
  {
    var s := "${a} ${b}";
    assert IsMatchAt(s, 0, 4);
    assert MatchEnd(s, 0) == Some(4);
  }

  /** The spans of `"${a} ${b}"` from its second token on. */
  lemma SecondSpan()
    ensures Spans("${a} ${b}", 4) == [(5, 9)]
  {
    var s := "${a} ${b}";
    assert MatchEnd(s, 4) == None;
    assert IsMatchAt(s, 5, 9);
    assert MatchEnd(s, 5) == Some(9);
    assert Spans(s, 5) == [(5, 9)] + Spans(s, 9);
  }

  /** A scan that finds two spans yields the two slices, in order. */
  lemma ScanTwo(s: string, sp: seq<(nat, nat)>)
    requires Spans(s, 0) == sp && |sp| == 2
    ensures Scan(s) == [s[sp[0].0 .. sp[0].1], s[sp[1].0 .. sp[1].1]]
  {
  }

  lemma TwoTokensScan()
    ensures Scan("${a} ${b}") == ["${a}", "${b}"]
  {
    var s := "${a} ${b}";
    FirstSpan();
    SecondSpan();
    ScanTwo(s, [(0, 4), (5, 9)]);
    assert s[0..4] == "${a}";
    assert s[5..9] == "${b}";
  }

  /** A template node without attributes watches nothing. */
  lemma BareNodeWatchesNothing(text: string)
    ensures Watch(Instantiate([Child(Element, text, [])])) == [Node(text, [], {})]
    ensures AllWatched(Watch(Instantiate([Child(Element, text, [])]))) == {}
  {
    var children := [Child(Element, text, [])];
    assert children[1..] == [];
    assert Instantiate(children) == [Node(text, [], {})];
    var nodes := Watch(Instantiate(children));
    assert WatchedNames([]) == {};
    assert nodes[0] == Node(text, [], {});
    assert nodes == [Node(text, [], {})];
  }

  lemma SeedTwo()
    ensures FieldText(Seed([Attr("a", "1"), Attr("b", "2")]), "a") == "1"
    ensures FieldText(Seed([Attr("a", "1"), Attr("b", "2")]), "b") == "2"
  {
    var host := [Attr("a", "1"), Attr("b", "2")];
    assert host[..1] == [Attr("a", "1")];
    assert host[..1][..0] == [];
    assert Seed(host) == map["a" := Some("1"), "b" := Some("2")];
  }

  /** `FoldReplace` over two placeholders, one replacement after the other. */
  lemma FoldReplaceTwo(s: string, p: TokenText, q: TokenText, f: Fields)
    ensures FoldReplace(s, [p, q], f)
            == ReplaceFirst(ReplaceFirst(s, p, FieldText(f, KeyOf(p))), q, FieldText(f, KeyOf(q)))
  {
    var raws: seq<TokenText> := [p, q];
    var s1 := ReplaceFirst(s, p, FieldText(f, KeyOf(p)));
    var s2 := ReplaceFirst(s1, q, FieldText(f, KeyOf(q)));
    assert raws[1..] == [q];
    assert FoldReplace(s, raws, f) == FoldReplace(s1, [q], f);
    assert [q][1..] == [];
    assert FoldReplace(s1, [q], f) == FoldReplace(s2, [], f);
  }

  lemma ReplaceFirstOfTwo()
    ensures ReplaceFirst("${a} ${b}", "${a}", "1") == "1 ${b}"
  {
    ReplaceAt("${a} ${b}", "${a}", "1", 0);
  }

  lemma ReplaceSecondOfTwo()
    ensures ReplaceFirst("1 ${b}", "${b}", "2") == "1 2"
  {
    ReplaceAt("1 ${b}", "${b}", "2", 2);
  }

  lemma FoldTwo(f: Fields)
    requires FieldText(f, "a") == "1" && FieldText(f, "b") == "2"
    ensures FoldReplace("${a} ${b}", ["${a}", "${b}"], f) == "1 2"
  {
    LiteralA();
    LiteralB();
    FoldReplaceTwo("${a} ${b}", "${a}", "${b}", f);
    ReplaceFirstOfTwo();
    ReplaceSecondOfTwo();
  }

  /** The first paint of a template whose first node has no watched
      attribute anywhere: its text with each scanned placeholder substituted. */
  lemma FirstNodeShows(host: seq<Attr>, children: seq<Child>, text: string, raws: seq<TokenText>, out: string)
    requires |Instantiate(children)| > 0 && Instantiate(children)[0].text == text
    requires AllWatched(Watch(Instantiate(children))) == {}
    requires Scan(StripFirstEscape(text)) == raws
    requires FoldReplace(text, raws, Seed(host)) == out
    ensures Construct(host, children).nodes[0].text == out
  {
    ConstructFirstPaintText(host, children, 0);
  }

  /** What the constructor sees for one text node with two placeholders. */
  lemma TwoPlaceholdersSetup()
    ensures var children := [Child(Element, "${a} ${b}", [])];
            && Watch(Instantiate(children)) == [Node("${a} ${b}", [], {})]
            && AllWatched(Watch(Instantiate(children))) == {}
    ensures Scan(StripFirstEscape("${a} ${b}")) == ["${a}", "${b}"]
    ensures FoldReplace("${a} ${b}", ["${a}", "${b}"], Seed([Attr("a", "1"), Attr("b", "2")])) == "1 2"
  {
    BareNodeWatchesNothing("${a} ${b}");
    TwoPlaceholdersScan();
    TwoPlaceholdersFold();
  }

  lemma TwoPlaceholdersScan()
    ensures Scan(StripFirstEscape("${a} ${b}")) == ["${a}", "${b}"]
  {
    NoBackslash("${a} ${b}");
    TwoTokensScan();
  }

  lemma TwoPlaceholdersFold()
    ensures FoldReplace("${a} ${b}", ["${a}", "${b}"], Seed([Attr("a", "1"), Attr("b", "2")])) == "1 2"
  {
    SeedTwo();
    FoldTwo(Seed([Attr("a", "1"), Attr("b", "2")]));
  }

  /** Two placeholders in one text node, both bound to host attributes: the
      first paint shows both values. */
  lemma FirstPaintOfTwoPlaceholders()
    ensures Construct([Attr("a", "1"), Attr("b", "2")], [Child(Element, "${a} ${b}", [])]).nodes[0].text == "1 2"
  {
    var children := [Child(Element, "${a} ${b}", [])];
    TwoPlaceholdersSetup();
    assert Instantiate(children)[0].text == "${a} ${b}";
    FirstNodeShows([Attr("a", "1"), Attr("b", "2")], children, "${a} ${b}", ["${a}", "${b}"], "1 2");
  }

  /** A template whose text shows `title` while its own `title` attribute is
      a bare placeholder: `title` is watched, so painting the attribute also
      writes the field the text reads. */
  const TitleTemplate: seq<Child> := [Child(Element, "${title}", [Attr("title", "${a}")])]

  const TitleHost: seq<Attr> := [Attr("a", "x"), Attr("title", "y")]

  const TitleTextToken: Token := Token(0, None, "${title}", "${title}")

  const TitleAttrToken: Token := Token(0, Some("title"), "${a}", "${a}")

  /** A placeholder around a key of lower-case letters is one token, needs
      no unescaping, and scans as itself. */
  lemma WordToken(k: string)
    requires |k| >= 1 && forall j :: 0 <= j < |k| ==> 'a' <= k[j] <= 'z'
    ensures IsTokenText("${" + k + "}")
    ensures StripFirstEscape("${" + k + "}") == "${" + k + "}"
    ensures Scan("${" + k + "}") == ["${" + k + "}"]
    ensures KeyOf("${" + k + "}") == k
  {
    var t := "${" + k + "}";
    WordKey(k);
    WholeValueIsToken(t);
    WordUnescaped(k);
  }

  lemma WordKey(k: string)
    requires |k| >= 1 && forall j :: 0 <= j < |k| ==> 'a' <= k[j] <= 'z'
    ensures IsTokenText("${" + k + "}") && KeyOf("${" + k + "}") == k
  {
    assert forall j :: 0 <= j < |k| ==> !IsLineTerminator(k[j]) && k[j] != '}';
    KeyRoundTrip(k);
  }

  lemma WordUnescaped(k: string)
    requires forall j :: 0 <= j < |k| ==> 'a' <= k[j] <= 'z'
    ensures StripFirstEscape("${" + k + "}") == "${" + k + "}"
  {
    var t := "${" + k + "}";
    forall j | 0 <= j < |t| ensures t[j] != '\\' {
      if 2 <= j < |t| - 1 {
        assert t[j] == k[j - 2];
      }
    }
    NoBackslash(t);
  }

  lemma TitleLiterals()
    ensures Scan("${a}") == ["${a}"] && KeyOf("${a}") == "a"
    ensures StripFirstEscape("${title}") == "${title}"
    ensures Scan("${title}") == ["${title}"] && KeyOf("${title}") == "title"
  {
    LiteralA();
    LiteralTitle();
  }

  lemma LiteralA()
    ensures Scan("${a}") == ["${a}"] && KeyOf("${a}") == "a"
  {
    WordToken("a");
    assert "${" + "a" + "}" == "${a}";
  }

  lemma LiteralB()
    ensures KeyOf("${b}") == "b"
  {
    WordToken("b");
    assert "${" + "b" + "}" == "${b}";
  }

  lemma LiteralTitle()
    ensures StripFirstEscape("${title}") == "${title}"
    ensures Scan("${title}") == ["${title}"] && KeyOf("${title}") == "title"
  {
    WordToken("title");
    assert "${" + "title" + "}" == "${title}";
  }

  lemma TitleWatched(attrs: seq<Attr>)
    requires attrs == [Attr("title", "${a}")]
    ensures WatchedNames(attrs) == {"title"}
  {
    TitleLiterals();
    WatchedOne(attrs);
  }

  /** A lone attribute is watched exactly when its value is one whole token. */
  lemma WatchedOne(attrs: seq<Attr>)
    requires |attrs| == 1 && attrs[0].value in Scan(attrs[0].value)
    ensures WatchedNames(attrs) == {attrs[0].name}
  {
    assert attrs[0].name in WatchedNames(attrs);
  }

  lemma TitleNodes()
    ensures Watch(Instantiate(TitleTemplate)) == [Node("${title}", [Attr("title", "${a}")], {"title"})]
  {
    assert TitleTemplate[1..] == [];
    var attrs := [Attr("title", "${a}")];
    assert Instantiate(TitleTemplate) == [Node("${title}", attrs, {})];
    TitleWatched(attrs);
  }

  lemma TitleTextTokens()
    ensures TextTokens(0, "${title}") == [TitleTextToken]
  {
    TitleLiterals();
  }

  lemma TitleAttrTokens(attrs: seq<Attr>)
    requires attrs == [Attr("title", "${a}")]
    ensures AttrTokens(0, attrs) == [TitleAttrToken]
  {
    TitleLiterals();
    assert AttrTokens(0, attrs[1..]) == [];
  }

  lemma TitleNodeTokens(node: Node)
    requires node == Node("${title}", [Attr("title", "${a}")], {"title"})
    ensures NodeTokens(0, node) == [TitleTextToken, TitleAttrToken]
  {
    TitleTextTokens();
    TitleAttrTokens(node.attrs);
  }

  lemma TitleTokens(nodes: seq<Node>)
    requires nodes == [Node("${title}", [Attr("title", "${a}")], {"title"})]
    ensures AllTokens(nodes, 0) == [TitleTextToken, TitleAttrToken]
  {
    TitleNodeTokens(nodes[0]);
    assert AllTokens(nodes, 1) == [];
  }

  lemma SeedTitle()
    ensures FieldText(Seed(TitleHost), "a") == "x"
    ensures FieldText(Seed(TitleHost), "title") == "y"
  {
    assert TitleHost[..1] == [Attr("a", "x")];
    assert TitleHost[..1][..0] == [];
    assert Seed(TitleHost) == map["a" := Some("x"), "title" := Some("y")];
  }

  /** Painting the title node's text token: the text becomes the `title`
      field and nothing else changes. */
  lemma PaintTitleText(inst: Instance, t: string, v: string)
    requires inst.nodes == [Node(t, [Attr("title", v)], {"title"})]
    ensures TokenFits(inst.nodes, TitleTextToken)
    ensures ApplyToken(inst, TitleTextToken, None)
            == inst.(nodes := [Node(FieldText(inst.fields, "title"), [Attr("title", v)], {"title"})])
  {
    var w := FieldText(inst.fields, "title");
    assert TitleTextToken.Key() == "title" by {
      TitleLiterals();
    }
    assert ReplaceFirst("${title}", "${title}", w) == w by {
      ReplaceWhole("${title}", w);
    }
    var node := inst.nodes[0];
    assert inst.nodes[0 := node.(text := w)] == [Node(w, [Attr("title", v)], {"title"})];
  }

  /** Painting the title node's attribute token right after its text: the
      attribute is read back from the node, and the write goes through the
      interception into the `title` field. */
  lemma PaintTitleAttr(inst: Instance, w: string, v: string)
    requires inst.nodes == [Node(w, [Attr("title", v)], {"title"})]
    ensures TokenFits(inst.nodes, TitleAttrToken)
    ensures var x := ReplaceFirst(v, "${a}", FieldText(inst.fields, "a"));
            ApplyToken(inst, TitleAttrToken, Some(0))
            == inst.(fields := inst.fields["title" := Some(x)], nodes := [Node(w, [Attr("title", x)], {"title"})])
  {
    var node := inst.nodes[0];
    var x := ReplaceFirst(v, "${a}", FieldText(inst.fields, "a"));
    assert node.attrs[0].name == "title";
    assert TitleAttrToken.Key() == "a" by {
      TitleLiterals();
    }
    assert GetAttribute(node.attrs, "title") == Some(v);
    assert SetAttr(node.attrs, "title", x) == [Attr("title", x)];
    assert ApplyToken(inst, TitleAttrToken, Some(0)) == SetAttribute(inst, 0, "title", x);
    assert inst.nodes[0 := node.(attrs := [Attr("title", x)])] == [Node(w, [Attr("title", x)], {"title"})];
  }

  /** The title node with text `t` and `title` attribute `v`, carrying the
      two tokens discovered on the template. */
  ghost predicate TitleShape(inst: Instance, t: string, v: string) {
    && inst.nodes == [Node(t, [Attr("title", v)], {"title"})]
    && inst.reg.tokens == [TitleTextToken, TitleAttrToken]
  }

  /** One render of the title node: the text takes the `title` field as it
      was before the render, and painting the attribute then overwrites that
      field through the interception. */
  lemma RenderTitle(inst: Instance, t: string, v: string)
    requires TitleShape(inst, t, v)
    ensures Valid(inst)
    ensures var x := ReplaceFirst(v, "${a}", FieldText(inst.fields, "a"));
            && TitleShape(Render(inst), FieldText(inst.fields, "title"), x)
            && Render(inst).fields == inst.fields["title" := Some(x)]
  {
    PaintTitleText(inst, t, v);
    var i1 := ApplyToken(inst, TitleTextToken, None);
    PaintTitleAttr(i1, FieldText(inst.fields, "title"), v);
    RenderPair(inst, TitleTextToken, TitleAttrToken);
  }

  /** Rendering two tokens is applying them in turn. */
  lemma RenderPair(inst: Instance, t1: Token, t2: Token)
    requires TokenFits(inst.nodes, t1) && TokenFits(inst.nodes, t2)
    ensures TokenFits(ApplyToken(inst, t1, None).nodes, t2)
    ensures RenderSeq(inst, [t1, t2], None)
              == ApplyToken(ApplyToken(inst, t1, None), t2, Some(t1.node))
  {
    var i1 := ApplyToken(inst, t1, None);
    ApplyTokenFrame(inst, t1, None);
    assert [t1, t2][1..] == [t2];
    assert [t2][1..] == [];
    assert RenderSeq(i1, [t2], Some(t1.node)) == ApplyToken(i1, t2, Some(t1.node));
  }

  /** What the constructor hands to `render()` for the title component. */
  lemma TitleSetup()
    ensures var nodes := Watch(Instantiate(TitleTemplate));
            var f := Seed(TitleHost);
            && TitleShape(Instance(f, nodes, Discover(nodes)), "${title}", "${a}")
            && FieldText(f, "a") == "x" && FieldText(f, "title") == "y"
  {
    var nodes := Watch(Instantiate(TitleTemplate));
    TitleNodes();
    TitleTokens(nodes);
    SeedTitle();
  }

  /** The constructor's render of the title component: it shows the host's
      `title`, and the attribute paint has overwritten the `title` field. */
  lemma ConstructTitle()
    ensures TitleShape(Construct(TitleHost, TitleTemplate), "y", "x")
    ensures FieldText(Construct(TitleHost, TitleTemplate).fields, "title") == "x"
  {
    TitleSetup();
    ReplaceWhole("${a}", "x");
    var nodes := Watch(Instantiate(TitleTemplate));
    RenderTitle(Instance(Seed(TitleHost), nodes, Discover(nodes)), "${title}", "${a}");
  }

  /** Rendering a freshly constructed title component again changes what it
      shows: the first paint shows the host's `title`, the second shows the
      value the first paint wrote into `title` through the attribute. */
  lemma RenderNotIdempotent()
    ensures Construct(TitleHost, TitleTemplate).nodes[0].text == "y"
    ensures Render(Construct(TitleHost, TitleTemplate)).nodes[0].text == "x"
  {
    ConstructTitle();
    RenderTitle(Construct(TitleHost, TitleTemplate), "y", "x");
  }

  lemma ReplaceFirstOfPair()
    ensures ReplaceFirst("${a} ${a}", "${a}", "v") == "v ${a}"
  {
    ReplaceAt("${a} ${a}", "${a}", "v", 0);
  }

  /** A targeted update restarts from the discovered snapshot: when a node
      shows `"v v"` for `"${a} ${a}"`, updating its first `a` token brings
      the second placeholder back. */
  lemma UpdateRevertsSecondPlaceholder(inst: Instance)
    requires |inst.nodes| == 1 && inst.nodes[0].text == "v v"
    requires FieldText(inst.fields, "a") == "v"
    ensures UpdateToken(inst, Token(0, None, "${a}", "${a} ${a}")).nodes[0].text == "v ${a}"
  {
    assert KeyOf("${a}") == "a" by {
      WordToken("a");
      assert "${" + "a" + "}" == "${a}";
    }
    ReplaceFirstOfPair();
  }
}
