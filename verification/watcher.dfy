/** `_onAttributeChange` (endemic.js:117-124): the observer callback on the
    host element, and the `_updateToken` calls it makes. */
module Watcher {
  import opened Wrappers
  import opened Strings
  import opened Dom
  import opened TokenIndex
  import opened Component

  datatype RecordType = Attributes | ChildList | CharacterData

  /** A `MutationRecord` delivered by the observer on the host element. */
  datatype MutationRecord = MutationRecord(kind: RecordType, attributeName: string)

  /** `forEach(_updateToken)` over a run of tokens. */
  function UpdateAll(inst: Instance, ts: seq<Token>): (r: Instance)
    requires AllFit(inst.nodes, ts)
    decreases |ts|
    ensures r.reg == inst.reg
    ensures AttrsKept(inst.nodes, r.nodes) && WatchesKept(inst.nodes, r.nodes)
    ensures forall m :: 0 <= m < |inst.nodes| && NoTokenOn(ts, m) ==> r.nodes[m] == inst.nodes[m]
    ensures AgreeOff(r.fields, inst.fields, AllWatched(inst.nodes))
  {
    if |ts| == 0 then inst
    else
      var next := UpdateToken(inst, ts[0]);
      FitsKept(inst.nodes, next.nodes, ts[1..]);
      var r := UpdateAll(next, ts[1..]);
      FrameCompose(inst, ts, next, r);
      r
  }

  /** Updates that write no text on node `n` leave its text alone. */
  lemma {:induction false} UpdateAllKeepsText(inst: Instance, ts: seq<Token>, n: nat)
    requires n < |inst.nodes| && AllFit(inst.nodes, ts) && NoTextOn(ts, n)
    ensures UpdateAll(inst, ts).nodes[n].text == inst.nodes[n].text
    decreases |ts|
  {
    if |ts| > 0 {
      var next := UpdateToken(inst, ts[0]);
      FitsKept(inst.nodes, next.nodes, ts[1..]);
      UpdateAllKeepsText(next, ts[1..], n);
    }
  }

  /** No token of the list writes attribute `a` of node `n`. */
  predicate NoWriteTo(ts: seq<Token>, n: nat, a: string) {
    forall i :: 0 <= i < |ts| ==> ts[i].node != n || ts[i].attr != Some(a)
  }

  /** Updates that never write attribute `a` of node `n` leave it as it was. */
  lemma {:induction false} UpdateAllKeepsAttr(inst: Instance, ts: seq<Token>, n: nat, a: string)
    requires n < |inst.nodes| && AllFit(inst.nodes, ts) && NoWriteTo(ts, n, a)
    ensures GetAttribute(UpdateAll(inst, ts).nodes[n].attrs, a) == GetAttribute(inst.nodes[n].attrs, a)
    decreases |ts|
  {
    if |ts| > 0 {
      var next := UpdateToken(inst, ts[0]);
      if ts[0].attr == Some(a) {
        assert next.nodes[n] == inst.nodes[n];
      } else {
        ApplyTokenOtherAttrs(inst, ts[0], None, a);
      }
      FitsKept(inst.nodes, next.nodes, ts[1..]);
      UpdateAllKeepsAttr(next, ts[1..], n, a);
    }
  }

  /** The attribute counterpart of `UpdateAllLastText`: attribute `a` of node
      `n` ends up as the snapshot of the last token that writes it, with only
      that token substituted. */
  lemma {:induction false} UpdateAllLastAttr(inst: Instance, ts: seq<Token>, n: nat, a: string, i: nat)
    requires AllFit(inst.nodes, ts) && i < |ts|
    requires ts[i].node == n && ts[i].attr == Some(a) && NoWriteTo(ts[i + 1..], n, a)
    requires ts[i].Key() !in AllWatched(inst.nodes)
    ensures GetAttribute(UpdateAll(inst, ts).nodes[n].attrs, a)
            == Some(ReplaceFirst(ts[i].initialValue, ts[i].raw, FieldText(inst.fields, ts[i].Key())))
    decreases |ts|
  {
    var next := UpdateToken(inst, ts[0]);
    FitsKept(inst.nodes, next.nodes, ts[1..]);
    if i == 0 {
      UpdateAllKeepsAttr(next, ts[1..], n, a);
    } else {
      var t := ts[i];
      SameWatches(inst.nodes, next.nodes);
      assert inst.nodes[ts[0].node].watched <= AllWatched(inst.nodes);
      assert FieldText(next.fields, t.Key()) == FieldText(inst.fields, t.Key());
      assert ts[1..][i - 1] == t && ts[1..][i - 1 + 1..] == ts[i + 1..];
      UpdateAllLastAttr(next, ts[1..], n, a, i - 1);
    }
  }

  /** Every update restarts from the token's snapshot, so a node's text ends
      up as the snapshot of the last text token on it with only that token
      substituted: the other placeholders in it show again. */
  lemma {:induction false} UpdateAllLastText(inst: Instance, ts: seq<Token>, n: nat, i: nat)
    requires AllFit(inst.nodes, ts) && i < |ts|
    requires ts[i].node == n && ts[i].attr.None? && NoTextOn(ts[i + 1..], n)
    requires ts[i].Key() !in AllWatched(inst.nodes)
    ensures UpdateAll(inst, ts).nodes[n].text
            == ReplaceFirst(ts[i].initialValue, ts[i].raw, FieldText(inst.fields, ts[i].Key()))
    decreases |ts|
  {
    var next := UpdateToken(inst, ts[0]);
    FitsKept(inst.nodes, next.nodes, ts[1..]);
    if i == 0 {
      UpdateAllKeepsText(next, ts[1..], n);
    } else {
      var t := ts[i];
      SameWatches(inst.nodes, next.nodes);
      assert inst.nodes[ts[0].node].watched <= AllWatched(inst.nodes);
      assert FieldText(next.fields, t.Key()) == FieldText(inst.fields, t.Key());
      assert ts[1..][i - 1] == t && ts[1..][i - 1 + 1..] == ts[i + 1..];
      UpdateAllLastText(next, ts[1..], n, i - 1);
    }
  }

  /** The tokens filed under any key belong to the instance, so they fit it. */
  lemma IndexedTokensFit(inst: Instance, name: string)
    requires Valid(inst) && Consistent(inst.reg)
    ensures AllFit(inst.nodes, Lookup(inst.reg.index, name))
  {
    var ts := Lookup(inst.reg.index, name);
    forall i | 0 <= i < |ts| ensures TokenFits(inst.nodes, ts[i]) {
      TokenUnderOwnKey(inst.reg, ts[i], name);
      var j :| 0 <= j < |inst.reg.tokens| && inst.reg.tokens[j] == ts[i];
    }
  }

  /** One record: anything but an attribute change is ignored; otherwise the
      field of that name takes the host's current attribute value (null when
      the attribute is gone), then exactly the tokens filed under that name
      are updated, in index order. */
  function ChangeStep(inst: Instance, host: seq<Attr>, rec: MutationRecord): (r: Instance)
    requires Valid(inst) && Consistent(inst.reg)
    ensures Valid(r) && r.reg == inst.reg && WatchesKept(inst.nodes, r.nodes)
    ensures forall m :: 0 <= m < |inst.nodes| && NoTokenOn(Lookup(inst.reg.index, rec.attributeName), m) ==>
              r.nodes[m] == inst.nodes[m]
  {
    if rec.kind != Attributes then inst
    else
      var name := rec.attributeName;
      var seeded := inst.(fields := inst.fields[name := GetAttribute(host, name)]);
      IndexedTokensFit(inst, name);
      var r := UpdateAll(seeded, Lookup(inst.reg.index, name));
      FitsKept(seeded.nodes, r.nodes, inst.reg.tokens);
      r
  }

  /** `_onAttributeChange(changeList)`: the records strictly in list order. */
  function OnAttributeChange(inst: Instance, host: seq<Attr>, records: seq<MutationRecord>): (r: Instance)
    requires Valid(inst) && Consistent(inst.reg)
    decreases |records|
    ensures Valid(r) && r.reg == inst.reg && WatchesKept(inst.nodes, r.nodes)
  {
    if |records| == 0 then inst
    else OnAttributeChange(ChangeStep(inst, host, records[0]), host, records[1..])
  }

  /** A batch is the same as its two halves delivered one after the other. */
  lemma {:induction false} BatchesCompose(inst: Instance, host: seq<Attr>, a: seq<MutationRecord>, b: seq<MutationRecord>)
    requires Valid(inst) && Consistent(inst.reg)
    ensures OnAttributeChange(inst, host, a + b)
              == OnAttributeChange(OnAttributeChange(inst, host, a), host, b)
    decreases |a|
  {
    if |a| > 0 {
      assert (a + b)[0] == a[0] && (a + b)[1..] == a[1..] + b;
      BatchesCompose(ChangeStep(inst, host, a[0]), host, a[1..], b);
    } else {
      assert a + b == b;
    }
  }

  /** The attribute-change records of a batch, in order. */
  function AttributeRecords(records: seq<MutationRecord>): (r: seq<MutationRecord>)
    ensures forall i :: 0 <= i < |r| ==> r[i].kind == Attributes
    ensures forall x :: x in r <==> x in records && x.kind == Attributes
  {
    if |records| == 0 then []
    else (if records[0].kind == Attributes then [records[0]] else []) + AttributeRecords(records[1..])
  }

  /** Selecting the attribute records keeps order and multiplicity. */
  lemma {:induction false} AttributeRecordsAppend(a: seq<MutationRecord>, b: seq<MutationRecord>)
    ensures AttributeRecords(a + b) == AttributeRecords(a) + AttributeRecords(b)
    decreases |a|
  {
    if |a| == 0 {
      assert a + b == b;
    } else {
      assert (a + b)[0] == a[0] && (a + b)[1..] == a[1..] + b;
      AttributeRecordsAppend(a[1..], b);
    }
  }

  /** Records of any other type have no effect. */
  lemma {:induction false} OnlyAttributeRecordsCount(inst: Instance, host: seq<Attr>, records: seq<MutationRecord>)
    requires Valid(inst) && Consistent(inst.reg)
    ensures OnAttributeChange(inst, host, records) == OnAttributeChange(inst, host, AttributeRecords(records))
    decreases |records|
  {
    if |records| > 0 {
      var next := ChangeStep(inst, host, records[0]);
      assert OnAttributeChange(inst, host, records) == OnAttributeChange(next, host, records[1..]);
      OnlyAttributeRecordsCount(next, host, records[1..]);
      if records[0].kind == Attributes {
        assert AttributeRecords(records) == [records[0]] + AttributeRecords(records[1..]);
        assert AttributeRecords(records)[1..] == AttributeRecords(records[1..]);
      } else {
        assert next == inst;
        assert AttributeRecords(records) == [] + AttributeRecords(records[1..]);
        assert AttributeRecords(records) == AttributeRecords(records[1..]);
        assert OnAttributeChange(inst, host, records) == OnAttributeChange(inst, host, records[1..]);
      }
    }
  }

  /** An attribute change sets the field of that name to the host's current
      value, provided no template attribute of that name is watched (a watched
      one would be written again by the token updates). */
  lemma ChangeSetsField(inst: Instance, host: seq<Attr>, name: string)
    requires Valid(inst) && Consistent(inst.reg)
    requires name !in AllWatched(inst.nodes)
    ensures var r := ChangeStep(inst, host, MutationRecord(Attributes, name));
            name in r.fields && r.fields[name] == GetAttribute(host, name)
  {
    IndexedTokensFit(inst, name);
  }

  /** After an attribute change, a node's text is the snapshot of the last
      text token filed under that name on the node, with that one
      placeholder replaced by the new value ("" when the attribute is gone). */
  lemma ChangeSetsText(inst: Instance, host: seq<Attr>, name: string, n: nat, i: nat)
    requires Valid(inst) && Consistent(inst.reg)
    requires name !in AllWatched(inst.nodes) && n < |inst.nodes|
    requires var ts := Lookup(inst.reg.index, name);
             i < |ts| && ts[i].node == n && ts[i].attr.None? && NoTextOn(ts[i + 1..], n)
    ensures var ts := Lookup(inst.reg.index, name);
            ChangeStep(inst, host, MutationRecord(Attributes, name)).nodes[n].text
              == ReplaceFirst(ts[i].initialValue, ts[i].raw, GetAttribute(host, name).GetOr(""))
  {
    var ts := Lookup(inst.reg.index, name);
    TokenUnderOwnKey(inst.reg, ts[i], name);
    IndexedTokensFit(inst, name);
    var seeded := inst.(fields := inst.fields[name := GetAttribute(host, name)]);
    UpdateAllLastText(seeded, ts, n, i);
  }

  /** After an attribute change, attribute `a` of node `n` holds the snapshot
      of the last token filed under that name that writes it, with that one
      placeholder replaced by the new value ("" when the attribute is gone). */
  lemma ChangeSetsAttr(inst: Instance, host: seq<Attr>, name: string, n: nat, a: string, i: nat)
    requires Valid(inst) && Consistent(inst.reg)
    requires name !in AllWatched(inst.nodes) && n < |inst.nodes|
    requires var ts := Lookup(inst.reg.index, name);
             i < |ts| && ts[i].node == n && ts[i].attr == Some(a) && NoWriteTo(ts[i + 1..], n, a)
    ensures var ts := Lookup(inst.reg.index, name);
            GetAttribute(ChangeStep(inst, host, MutationRecord(Attributes, name)).nodes[n].attrs, a)
              == Some(ReplaceFirst(ts[i].initialValue, ts[i].raw, GetAttribute(host, name).GetOr("")))
  {
    var ts := Lookup(inst.reg.index, name);
    TokenUnderOwnKey(inst.reg, ts[i], name);
    IndexedTokensFit(inst, name);
    var seeded := inst.(fields := inst.fields[name := GetAttribute(host, name)]);
    UpdateAllLastAttr(seeded, ts, n, a, i);
  }

  /** A change to an attribute no token is filed under only sets the field. */
  lemma UnboundChangeSetsFieldOnly(inst: Instance, host: seq<Attr>, name: string)
    requires Valid(inst) && Consistent(inst.reg)
    requires name !in inst.reg.index
    ensures ChangeStep(inst, host, MutationRecord(Attributes, name))
              == inst.(fields := inst.fields[name := GetAttribute(host, name)])
  {
  }
}
