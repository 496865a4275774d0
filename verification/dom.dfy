/** The slice of the host tree the engine touches: a node's text content and
    its ordered attribute list. */
module Dom {
  import opened Wrappers

  datatype Attr = Attr(name: string, value: string)

  /** A rendered node: its text, its attributes, and the attribute names its
      `setAttribute` has been wrapped to mirror into the owning instance. */
  datatype Node = Node(text: string, attrs: seq<Attr>, watched: set<string>)

  /** A host element never carries two attributes of the same name. */
  predicate UniqueNames(attrs: seq<Attr>) {
    forall i, j :: 0 <= i < j < |attrs| ==> attrs[i].name != attrs[j].name
  }

  predicate HasAttribute(attrs: seq<Attr>, name: string) {
    exists i :: 0 <= i < |attrs| && attrs[i].name == name
  }

  /** No attribute before position `i` is called `name`. */
  predicate IsFirstNamed(attrs: seq<Attr>, name: string, i: nat) {
    forall j :: 0 <= j < i && j < |attrs| ==> attrs[j].name != name
  }

  /** `getAttribute(name)`: the value of the first attribute of that name,
      `None` (JavaScript `null`) when there is none. */
  function GetAttribute(attrs: seq<Attr>, name: string): (r: Option<string>)
    ensures r.None? <==> !HasAttribute(attrs, name)
    ensures forall i :: 0 <= i < |attrs| && attrs[i].name == name && IsFirstNamed(attrs, name, i) ==>
              r == Some(attrs[i].value)
  {
    if |attrs| == 0 then None
    else if attrs[0].name == name then Some(attrs[0].value)
    else
      assert forall i :: 1 <= i < |attrs| ==> attrs[i] == attrs[1..][i - 1];
      GetAttribute(attrs[1..], name)
  }

  /** The unintercepted `setAttribute(name, value)`: an existing attribute
      keeps its place and takes the new value; a new one goes at the end. */
  function SetAttr(attrs: seq<Attr>, name: string, value: string): (r: seq<Attr>)
    ensures |r| == if HasAttribute(attrs, name) then |attrs| else |attrs| + 1
    ensures forall i :: 0 <= i < |attrs| ==> r[i].name == attrs[i].name
    ensures forall i :: 0 <= i < |attrs| && attrs[i].name != name ==> r[i] == attrs[i]
    ensures forall i :: 0 <= i < |attrs| && attrs[i].name == name && IsFirstNamed(attrs, name, i) ==>
              r[i] == Attr(name, value)
    ensures forall i :: 0 <= i < |attrs| && !IsFirstNamed(attrs, name, i) ==> r[i] == attrs[i]
    ensures !HasAttribute(attrs, name) ==> r[|attrs|] == Attr(name, value)
  {
    if |attrs| == 0 then [Attr(name, value)]
    else if attrs[0].name == name then
      assert forall i :: 0 < i < |attrs| ==> !IsFirstNamed(attrs, name, i);
      [Attr(name, value)] + attrs[1..]
    else
      var rest := SetAttr(attrs[1..], name, value);
      HasAttributeTail(attrs, name);
      ConsKeepsLater(attrs, name, rest);
      ConsSetsFirst(attrs, name, value, rest);
      [attrs[0]] + rest
  }

  /** Past a first attribute of another name, having the name is the same in
      the list and in its tail. */
  lemma HasAttributeTail(attrs: seq<Attr>, name: string)
    requires |attrs| > 0 && attrs[0].name != name
    ensures HasAttribute(attrs, name) <==> HasAttribute(attrs[1..], name)
  {
    if HasAttribute(attrs, name) {
      var i :| 0 <= i < |attrs| && attrs[i].name == name;
      assert attrs[1..][i - 1] == attrs[i];
    }
    if HasAttribute(attrs[1..], name) {
      var i :| 0 <= i < |attrs[1..]| && attrs[1..][i].name == name;
      assert attrs[i + 1] == attrs[1..][i];
    }
  }

  /** Past a first attribute of another name, being the first of a name is
      the same in the list and in its tail. */
  lemma FirstNamedTail(attrs: seq<Attr>, name: string)
    requires |attrs| > 0 && attrs[0].name != name
    ensures forall i :: 0 < i <= |attrs| ==>
              (IsFirstNamed(attrs, name, i) <==> IsFirstNamed(attrs[1..], name, i - 1))
  {
    forall i | 0 < i <= |attrs|
      ensures IsFirstNamed(attrs, name, i) <==> IsFirstNamed(attrs[1..], name, i - 1)
    {
      assert forall j :: 0 <= j < i - 1 ==> attrs[1..][j] == attrs[j + 1];
    }
  }

  /** A tail that keeps every attribute after the first of a name still does
      so once the first attribute, of another name, is put back in front. */
  lemma ConsKeepsLater(attrs: seq<Attr>, name: string, rest: seq<Attr>)
    requires |attrs| > 0 && attrs[0].name != name && |rest| >= |attrs| - 1
    requires forall i :: 0 <= i < |attrs| - 1 && !IsFirstNamed(attrs[1..], name, i) ==> rest[i] == attrs[1..][i]
    ensures forall i :: 0 <= i < |attrs| && !IsFirstNamed(attrs, name, i) ==> ([attrs[0]] + rest)[i] == attrs[i]
  {
    FirstNamedTail(attrs, name);
    forall i | 0 <= i < |attrs| && !IsFirstNamed(attrs, name, i)
      ensures ([attrs[0]] + rest)[i] == attrs[i]
    {
      assert i != 0;
      assert !IsFirstNamed(attrs[1..], name, i - 1);
      assert rest[i - 1] == attrs[1..][i - 1];
    }
  }

  /** A tail that writes the first attribute of a name still does so once the
      first attribute, of another name, is put back in front. */
  lemma ConsSetsFirst(attrs: seq<Attr>, name: string, value: string, rest: seq<Attr>)
    requires |attrs| > 0 && attrs[0].name != name && |rest| >= |attrs| - 1
    requires forall i :: 0 <= i < |attrs| - 1 && attrs[1..][i].name == name && IsFirstNamed(attrs[1..], name, i) ==>
               rest[i] == Attr(name, value)
    ensures forall i :: 0 <= i < |attrs| && attrs[i].name == name && IsFirstNamed(attrs, name, i) ==>
              ([attrs[0]] + rest)[i] == Attr(name, value)
  {
    FirstNamedTail(attrs, name);
    forall i | 0 <= i < |attrs| && attrs[i].name == name && IsFirstNamed(attrs, name, i)
      ensures ([attrs[0]] + rest)[i] == Attr(name, value)
    {
      assert i != 0;
      assert attrs[1..][i - 1] == attrs[i];
      assert IsFirstNamed(attrs[1..], name, i - 1);
    }
  }

  /** The get/set laws: reading back the written name gives the written
      value, and every other name reads as before. */
  lemma {:induction false} GetAfterSet(attrs: seq<Attr>, name: string, value: string)
    ensures GetAttribute(SetAttr(attrs, name, value), name) == Some(value)
    ensures forall n :: n != name ==> GetAttribute(SetAttr(attrs, name, value), n) == GetAttribute(attrs, n)
  {
    var r := SetAttr(attrs, name, value);
    if |attrs| == 0 {
    } else if attrs[0].name == name {
      assert r[1..] == attrs[1..];
    } else {
      GetAfterSet(attrs[1..], name, value);
      assert r[1..] == SetAttr(attrs[1..], name, value);
    }
  }

  /** Writing an attribute never creates a second attribute of one name. */
  lemma SetKeepsUnique(attrs: seq<Attr>, name: string, value: string)
    requires UniqueNames(attrs)
    ensures UniqueNames(SetAttr(attrs, name, value))
  {
    var r := SetAttr(attrs, name, value);
    forall i, j | 0 <= i < j < |r| ensures r[i].name != r[j].name {
      if j < |attrs| {
        assert r[i].name == attrs[i].name && r[j].name == attrs[j].name;
      } else {
        assert r[j].name == name && r[i].name == attrs[i].name;
      }
    }
  }
}
