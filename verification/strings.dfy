/** The two `String.prototype.replace` calls of endemic.js with a literal
    pattern: replace the first occurrence only. */
module Strings {
  import opened Wrappers
  import opened Scanner

  /** `p` occurs in `s` starting at `i`. */
  predicate OccursAt(s: string, p: string, i: nat) {
    i + |p| <= |s| && s[i..i + |p|] == p
  }

  /** `s.indexOf(p, from)`: the first occurrence at or after `from`. */
  function IndexOf(s: string, p: string, from: nat): (r: Option<nat>)
    decreases |s| - from
    ensures r.Some? ==> from <= r.value && OccursAt(s, p, r.value)
    ensures r.Some? ==> forall k: nat :: from <= k < r.value ==> !OccursAt(s, p, k)
    ensures r.None? ==> forall k: nat :: from <= k ==> !OccursAt(s, p, k)
  {
    if from + |p| > |s| then None
    else if s[from..from + |p|] == p then Some(from)
    else IndexOf(s, p, from + 1)
  }

  /** `s.replace(p, v)` with a string pattern: the first occurrence of `p`
      becomes `v`; a string without `p` is returned unchanged. */
  function ReplaceFirst(s: string, p: string, v: string): (r: string)
    ensures (forall k: nat :: !OccursAt(s, p, k)) ==> r == s
    ensures forall i: nat :: OccursAt(s, p, i) && (forall k: nat :: k < i ==> !OccursAt(s, p, k)) ==>
              r == s[..i] + v + s[i + |p|..]
  {
    match IndexOf(s, p, 0)
    case Some(i) => s[..i] + v + s[i + |p|..]
    case None => s
  }

  /** A backslash followed by a brace: what `/\\[{}]/` matches. */
  predicate IsEscapeAt(s: string, j: nat) {
    j + 1 < |s| && s[j] == '\\' && (s[j + 1] == '{' || s[j + 1] == '}')
  }

  lemma EscapeIsOccurrence(s: string, j: nat)
    ensures IsEscapeAt(s, j) <==> OccursAt(s, "\\{", j) || OccursAt(s, "\\}", j)
  {
    if j + 2 <= |s| {
      assert s[j..j + 2] == [s[j], s[j + 1]];
    }
  }

  /** `text.replace(/\\[{}]/, "")`: the regular expression has no `g` flag,
      so only the first escaped brace is deleted, backslash and brace both. */
  function StripFirstEscape(s: string): (r: string)
    ensures (forall j: nat :: !IsEscapeAt(s, j)) ==> r == s
    ensures forall j: nat :: IsEscapeAt(s, j) && (forall k: nat :: k < j ==> !IsEscapeAt(s, k)) ==>
              r == s[..j] + s[j + 2..]
  {
    var a := IndexOf(s, "\\{", 0);
    var b := IndexOf(s, "\\}", 0);
    var first :=
      if a.None? then b
      else if b.None? then a
      else if a.value <= b.value then a else b;
    assert forall j: nat :: IsEscapeAt(s, j) <==> OccursAt(s, "\\{", j) || OccursAt(s, "\\}", j) by {
      forall j: nat ensures IsEscapeAt(s, j) <==> OccursAt(s, "\\{", j) || OccursAt(s, "\\}", j) {
        EscapeIsOccurrence(s, j);
      }
    }
    match first
    case Some(j) => s[..j] + s[j + 2..]
    case None => s
  }

  /** `$\{k}` is the way to write a literal placeholder in text: deleting the
      escape leaves `$k}`, so no token starts at that `$`, provided nothing
      before it is an escape and `k` does not itself start with `{` (`$\{{x}`
      strips to `${x}`, a real token). */
  lemma EscapedPlaceholder(pre: string, k: string, post: string)
    requires forall j: nat :: !IsEscapeAt(pre, j)
    requires |k| == 0 || k[0] != '{'
    ensures StripFirstEscape(pre + "$\\{" + k + "}" + post) == pre + "$" + k + "}" + post
    ensures forall sp :: sp in Spans(pre + "$" + k + "}" + post, 0) ==> sp.0 != |pre|
  {
    var s := pre + "$\\{" + k + "}" + post;
    var j := |pre| + 1;
    assert IsEscapeAt(s, j);
    forall i: nat | i < j ensures !IsEscapeAt(s, i) {
      if i + 1 < |pre| {
        assert s[i] == pre[i] && s[i + 1] == pre[i + 1];
        assert !IsEscapeAt(pre, i);
      }
    }
    assert s[..j] + s[j + 2..] == pre + "$" + k + "}" + post;
    var t := pre + "$" + k + "}" + post;
    assert t[|pre| + 1] != '{';
    forall sp | sp in Spans(t, 0) ensures sp.0 != |pre| {
      var n :| 0 <= n < |Spans(t, 0)| && Spans(t, 0)[n] == sp;
      assert IsMatchAt(t, sp.0, sp.1);
    }
  }

  /** Only the first escape goes: a second `$\{` survives the deletion. */
  lemma OnlyFirstEscapeStripped()
    ensures StripFirstEscape("$\\{a} $\\{b}") == "$a} $\\{b}"
  {
    var s := "$\\{a} $\\{b}";
    assert IsEscapeAt(s, 1);
    assert forall k: nat :: k < 1 ==> !IsEscapeAt(s, k);
    assert s[..1] + s[3..] == "$a} $\\{b}";
  }
}
