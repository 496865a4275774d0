/** The per-instance token list and the key-to-tokens index that
    `_pushToken` (endemic.js:28-40) maintains. */
module TokenIndex {
  import opened Wrappers
  import opened Scanner
  import JsObjects

  /** One placeholder occurrence: the node it was found on (its position among
      the instance's rendered nodes), the attribute it sits in (`None` for the
      text content), the matched text, and the node's text or attribute value
      as it was when the token was discovered. */
  datatype Token = Token(node: nat, attr: Option<string>, raw: TokenText, initialValue: string) {
    /** The field name the token reads. */
    function Key(): string {
      KeyOf(raw)
    }
  }

  /** `this.tokens` and `this.tokenIndex`. */
  datatype Registry = Registry(tokens: seq<Token>, index: map<string, seq<Token>>)

  const Empty: Registry := Registry([], map[])

  /** The tokens of `ts` whose key is `k`, in the order of `ts`. */
  function Filter(ts: seq<Token>, k: string): (r: seq<Token>)
    ensures |r| <= |ts|
    ensures forall t :: t in r <==> t in ts && t.Key() == k
  {
    if |ts| == 0 then []
    else
      var init := ts[..|ts| - 1];
      assert ts == init + [ts[|ts| - 1]];
      Filter(init, k) + (if ts[|ts| - 1].Key() == k then [ts[|ts| - 1]] else [])
  }

  /** Filtering keeps list order and multiplicity: filtering a concatenation
      is concatenating the filtered parts. */
  lemma {:induction false} FilterAppend(a: seq<Token>, b: seq<Token>, k: string)
    ensures Filter(a + b, k) == Filter(a, k) + Filter(b, k)
    decreases |b|
  {
    if |b| == 0 {
      assert a + b == a;
    } else {
      var init := b[..|b| - 1];
      assert (a + b)[..|a + b| - 1] == a + init && (a + b)[|a + b| - 1] == b[|b| - 1];
      FilterAppend(a, init, k);
    }
  }

  /** `this.tokenIndex[k] || []`. */
  function Lookup(index: map<string, seq<Token>>, k: string): seq<Token> {
    if k in index then index[k] else []
  }

  /** The index holds, under each key, exactly the tokens of that key in list
      order, and every listed token has its key in the index. */
  ghost predicate Consistent(reg: Registry) {
    && (forall k :: k in reg.index ==> reg.index[k] == Filter(reg.tokens, k))
    && (forall i :: 0 <= i < |reg.tokens| ==> reg.tokens[i].Key() in reg.index)
  }

  /** `_pushToken`: append to the list and to the list of the token's key,
      creating that list on first use. */
  function PushToken(reg: Registry, t: Token): (r: Registry)
    ensures r.tokens == reg.tokens + [t]
    ensures Consistent(reg) ==> Consistent(r)
  {
    var r := Registry(reg.tokens + [t], reg.index[t.Key() := Lookup(reg.index, t.Key()) + [t]]);
    PushKeepsConsistent(reg, t, r);
    r
  }

  /** Appending a token to the list and to the list of its key keeps the
      index consistent. */
  lemma PushKeepsConsistent(reg: Registry, t: Token, r: Registry)
    requires r == Registry(reg.tokens + [t], reg.index[t.Key() := Lookup(reg.index, t.Key()) + [t]])
    ensures Consistent(reg) ==> Consistent(r)
  {
    if Consistent(reg) {
      assert r.tokens[..|r.tokens| - 1] == reg.tokens;
      forall k | k in r.index ensures r.index[k] == Filter(r.tokens, k) {
        if k != t.Key() {
          assert k in reg.index;
        } else {
          LookupIsFilter(reg, k);
        }
      }
    }
  }

  /** A consistent index answers every key, present or not, with the list
      filter of that key. */
  lemma LookupIsFilter(reg: Registry, k: string)
    requires Consistent(reg)
    ensures Lookup(reg.index, k) == Filter(reg.tokens, k)
  {
    if k !in reg.index {
      FilterAbsent(reg.tokens, k);
    }
  }

  lemma {:induction false} FilterAbsent(ts: seq<Token>, k: string)
    requires forall i :: 0 <= i < |ts| ==> ts[i].Key() != k
    ensures Filter(ts, k) == []
  {
    if |ts| > 0 {
      FilterAbsent(ts[..|ts| - 1], k);
    }
  }

  /** Every token is filed under its own key and under no other. */
  lemma TokenUnderOwnKey(reg: Registry, t: Token, k: string)
    requires Consistent(reg)
    ensures t in Lookup(reg.index, k) <==> t in reg.tokens && t.Key() == k
  {
    LookupIsFilter(reg, k);
  }

  /** Pushing a run of tokens one at a time. */
  function PushAll(reg: Registry, ts: seq<Token>): (r: Registry)
    decreases |ts|
    ensures r.tokens == reg.tokens + ts
    ensures Consistent(reg) ==> Consistent(r)
  {
    if |ts| == 0 then reg
    else
      assert reg.tokens + ts == reg.tokens + [ts[0]] + ts[1..];
      PushAll(PushToken(reg, ts[0]), ts[1..])
  }

  /** `_pushToken` as written: `this.tokenIndex` is a plain object literal, so
      for a key such as `constructor` the test `!this.tokenIndex[key]` sees the
      inherited `Object.prototype` member, skips creating the list, and the
      following `push` throws a `TypeError`. `None` stands for that throw. */
  function PushTokenAsWritten(reg: Registry, t: Token): (r: Option<Registry>)
    ensures r.None? <==> t.Key() in JsObjects.PrototypeNames
    ensures r.Some? ==> r.value.tokens == reg.tokens + [t]
  {
    if t.Key() in JsObjects.PrototypeNames then None else Some(PushToken(reg, t))
  }

  /** A template containing `${constructor}` makes the as-written push throw,
      while the corrected push files the token like any other. */
  lemma PrototypeKeyThrows()
    ensures var t := Token(0, None, "${constructor}", "${constructor}");
            && PushTokenAsWritten(Empty, t).None?
            && Lookup(PushToken(Empty, t).index, "constructor") == [t]
  {
    var t := Token(0, None, "${constructor}", "${constructor}");
    assert t.raw == "${" + "constructor" + "}";
    KeyRoundTrip("constructor");
  }
}
