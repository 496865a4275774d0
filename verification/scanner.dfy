/** The placeholder pattern `/\${(.+?)}/g` of endemic.js, as a pure function
    over strings: the global `String.prototype.match` returns every match,
    scanning left to right without overlap. */
module Scanner {
  import opened Wrappers

  /** The characters JavaScript's `.` refuses to match. */
  predicate IsLineTerminator(c: char) {
    c == '\n' || c == '\r' || c == '\U{2028}' || c == '\U{2029}'
  }

  /** `s[i..e]` is what the pattern matches when tried at position `i`:
      `${`, then a non-empty run of non-line-terminators, then the first `}`
      that can close it. The lazy `.+?` takes at least one character, so the
      first character after `${` may itself be `}`. */
  predicate IsMatchAt(s: string, i: nat, e: nat) {
    && i + 4 <= e <= |s|
    && s[i] == '$' && s[i + 1] == '{' && s[e - 1] == '}'
    && (forall k :: i + 2 <= k < e - 1 ==> !IsLineTerminator(s[k]))
    && (forall k :: i + 3 <= k < e - 1 ==> s[k] != '}')
  }

  /** A whole string that is one match: the raw text of a token. */
  predicate IsTokenText(t: string) {
    IsMatchAt(t, 0, |t|)
  }

  type TokenText = t: string | IsTokenText(t) witness "${_}"

  /** The first `}` at or after `j`, provided no line terminator comes first. */
  function FindClose(s: string, j: nat): (r: Option<nat>)
    decreases |s| - j
    ensures r.Some? ==> j <= r.value < |s| && s[r.value] == '}'
    ensures forall e :: j <= e < |s| ==>
              (r == Some(e) <==>
                 (s[e] == '}' && forall k :: j <= k < e ==> s[k] != '}' && !IsLineTerminator(s[k])))
  {
    if j >= |s| || IsLineTerminator(s[j]) then None
    else if s[j] == '}' then Some(j)
    else FindClose(s, j + 1)
  }

  /** The end of the match tried at `i`, if the pattern matches there. */
  function MatchEnd(s: string, i: nat): (r: Option<nat>)
    ensures r.Some? ==> IsMatchAt(s, i, r.value)
    ensures forall e: nat :: IsMatchAt(s, i, e) ==> r == Some(e)
  {
    if i + 2 < |s| && s[i] == '$' && s[i + 1] == '{' && !IsLineTerminator(s[i + 2]) then
      match FindClose(s, i + 3)
      case Some(c) => Some(c + 1)
      case None => None
    else None
  }

  /** Pairwise order of spans: each ends before the next begins. */
  ghost predicate Ordered(sp: seq<(nat, nat)>) {
    forall a, b :: 0 <= a < b < |sp| ==> sp[a].1 <= sp[b].0
  }

  ghost predicate AllMatches(s: string, i: nat, sp: seq<(nat, nat)>) {
    forall k :: 0 <= k < |sp| ==> i <= sp[k].0 && IsMatchAt(s, sp[k].0, sp[k].1)
  }

  /** Some span contains position `p`. */
  ghost predicate Covers(sp: seq<(nat, nat)>, p: nat) {
    exists k :: 0 <= k < |sp| && sp[k].0 <= p < sp[k].1
  }

  /** The spans the global search finds from position `i` on. */
  function Spans(s: string, i: nat): (r: seq<(nat, nat)>)
    decreases |s| - i
    ensures AllMatches(s, i, r)
    ensures Ordered(r)
  {
    if i >= |s| then []
    else match MatchEnd(s, i)
      case Some(e) => [(i, e)] + Spans(s, e)
      case None => Spans(s, i + 1)
  }

  /** No match is skipped: every position where the pattern matches lies
      inside one of the spans found. */
  lemma {:induction false} SpansComplete(s: string, i: nat, p: nat, e: nat)
    requires i <= p && IsMatchAt(s, p, e)
    ensures Covers(Spans(s, i), p)
    decreases |s| - i
  {
    var sp := Spans(s, i);
    match MatchEnd(s, i)
    case Some(e') =>
      assert sp == [(i, e')] + Spans(s, e');
      if p < e' {
        assert sp[0] == (i, e');
      } else {
        SpansComplete(s, e', p, e);
        var rest := Spans(s, e');
        var k :| 0 <= k < |rest| && rest[k].0 <= p < rest[k].1;
        assert sp[k + 1] == rest[k];
      }
    case None =>
      assert sp == Spans(s, i + 1);
      assert p != i;
      SpansComplete(s, i + 1, p, e);
  }

  /** The properties that pin down the global search from position `i`. */
  ghost predicate LeftmostCover(s: string, i: nat, sp: seq<(nat, nat)>) {
    && AllMatches(s, i, sp)
    && Ordered(sp)
    && (forall p, e :: i <= p && IsMatchAt(s, p, e) ==> Covers(sp, p))
  }

  /** If a match starts at `i`, a leftmost cover starts with it. */
  lemma CoverHead(s: string, i: nat, sp: seq<(nat, nat)>, e: nat)
    requires LeftmostCover(s, i, sp) && IsMatchAt(s, i, e)
    ensures |sp| > 0 && sp[0] == (i, e)
  {
    CoverFirst(sp, i);
    assert IsMatchAt(s, sp[0].0, sp[0].1);
    assert MatchEnd(s, i) == Some(sp[0].1);
  }

  /** In ordered spans, each starting at `i` or later and non-empty, the span
      covering `i` is the first, and it starts at `i`. */
  lemma CoverFirst(sp: seq<(nat, nat)>, i: nat)
    requires Ordered(sp) && Covers(sp, i)
    requires forall k :: 0 <= k < |sp| ==> i <= sp[k].0 < sp[k].1
    ensures |sp| > 0 && sp[0].0 == i
  {
    var k :| 0 <= k < |sp| && sp[k].0 <= i < sp[k].1;
    assert sp[0].1 <= sp[k].0 || k == 0;
  }

  /** Dropping the first span of a leftmost cover leaves a leftmost cover
      from the end of that span. */
  lemma CoverTail(s: string, i: nat, sp: seq<(nat, nat)>)
    requires LeftmostCover(s, i, sp) && |sp| > 0
    ensures LeftmostCover(s, sp[0].1, sp[1..])
  {
    var e := sp[0].1;
    var tail := sp[1..];
    forall p, e2 | e <= p && IsMatchAt(s, p, e2)
      ensures Covers(tail, p)
    {
      assert Covers(sp, p);
      CoverTailAt(sp, p);
    }
    forall a, b | 0 <= a < b < |tail| ensures tail[a].1 <= tail[b].0 {
      assert tail[a] == sp[a + 1] && tail[b] == sp[b + 1];
    }
    forall k | 0 <= k < |tail| ensures e <= tail[k].0 && IsMatchAt(s, tail[k].0, tail[k].1) {
      assert tail[k] == sp[k + 1];
      assert sp[0].1 <= sp[k + 1].0;
    }
  }

  lemma CoverTailAt(sp: seq<(nat, nat)>, p: nat)
    requires Covers(sp, p) && |sp| > 0 && sp[0].1 <= p
    ensures Covers(sp[1..], p)
  {
    var j :| 0 <= j < |sp| && sp[j].0 <= p < sp[j].1;
    assert sp[1..][j - 1] == sp[j];
  }

  /** If no match starts at `i`, a leftmost cover from `i` is one from `i + 1`. */
  lemma CoverSkip(s: string, i: nat, sp: seq<(nat, nat)>)
    requires LeftmostCover(s, i, sp) && MatchEnd(s, i).None?
    ensures LeftmostCover(s, i + 1, sp)
  {
    forall k | 0 <= k < |sp| ensures i + 1 <= sp[k].0 {
      assert IsMatchAt(s, sp[k].0, sp[k].1);
    }
  }

  /** The leftmost-first, non-overlapping search is the only sequence of
      ordered matches that leaves no match uncovered. */
  lemma {:induction false} SpansUnique(s: string, i: nat, sp: seq<(nat, nat)>)
    requires LeftmostCover(s, i, sp)
    ensures sp == Spans(s, i)
    decreases |s| - i, 1
  {
    if i >= |s| {
      assert |sp| > 0 ==> IsMatchAt(s, sp[0].0, sp[0].1);
    } else if MatchEnd(s, i).Some? {
      SpansUniqueAtMatch(s, i, sp, MatchEnd(s, i).value);
    } else {
      CoverSkip(s, i, sp);
      SpansUnique(s, i + 1, sp);
    }
  }

  /** The step of `SpansUnique` where a match starts at `i`. */
  lemma {:induction false} SpansUniqueAtMatch(s: string, i: nat, sp: seq<(nat, nat)>, e: nat)
    requires LeftmostCover(s, i, sp) && i < |s| && MatchEnd(s, i) == Some(e)
    ensures sp == Spans(s, i)
    decreases |s| - i, 0
  {
    assert Spans(s, i) == [(i, e)] + Spans(s, e);
    CoverHead(s, i, sp, e);
    CoverTail(s, i, sp);
    SpansUnique(s, e, sp[1..]);
    assert sp == [sp[0]] + sp[1..];
  }

  /** `Spans` is itself a leftmost cover. */
  lemma SpansIsLeftmostCover(s: string, i: nat)
    ensures LeftmostCover(s, i, Spans(s, i))
  {
    forall p, e | i <= p && IsMatchAt(s, p, e) ensures Covers(Spans(s, i), p) {
      SpansComplete(s, i, p, e);
    }
  }

  lemma MatchSlice(s: string, b: nat, e: nat)
    requires IsMatchAt(s, b, e)
    ensures IsTokenText(s[b..e])
  {
    var t := s[b..e];
    forall k | 2 <= k < |t| - 1 ensures !IsLineTerminator(t[k]) {
      assert t[k] == s[b + k];
    }
    forall k | 3 <= k < |t| - 1 ensures t[k] != '}' {
      assert t[k] == s[b + k];
    }
  }

  /** The matched substrings of a sequence of match spans. */
  function Slices(s: string, sp: seq<(nat, nat)>): (r: seq<TokenText>)
    requires forall k :: 0 <= k < |sp| ==> IsMatchAt(s, sp[k].0, sp[k].1)
    ensures |r| == |sp|
    ensures forall k :: 0 <= k < |sp| ==> IsMatchAt(s, sp[k].0, sp[k].1) && r[k] == s[sp[k].0 .. sp[k].1]
  {
    if |sp| == 0 then []
    else
      MatchSlice(s, sp[0].0, sp[0].1);
      [s[sp[0].0 .. sp[0].1]] + Slices(s, sp[1..])
  }

  /** `s.match(/\${(.+?)}/g) || []`. */
  function Scan(s: string): (r: seq<TokenText>)
  {
    Slices(s, Spans(s, 0))
  }

  /** What the global match returns, without reference to how it is found:
      the matched substrings of any leftmost, non-overlapping cover of the
      string by matches, and such a cover always exists. */
  lemma ScanOfCover(s: string, sp: seq<(nat, nat)>)
    ensures LeftmostCover(s, 0, sp) ==> Scan(s) == Slices(s, sp)
    ensures LeftmostCover(s, 0, Spans(s, 0))
  {
    SpansIsLeftmostCover(s, 0);
    if LeftmostCover(s, 0, sp) {
      SpansUnique(s, 0, sp);
    }
  }

  /** `tokenString.substring(2, tokenString.length - 1)`: the key inside `${…}`. */
  function KeyOf(t: TokenText): (k: string)
    ensures "${" + k + "}" == t
    ensures |k| >= 1
  {
    t[2..|t| - 1]
  }

  /** Which keys can be written as a placeholder and read back whole: a
      non-empty key without line terminators, whose only `}` may be its
      first character. */
  lemma KeyRoundTrip(k: string)
    ensures IsTokenText("${" + k + "}") <==>
              (|k| >= 1
               && (forall j :: 0 <= j < |k| ==> !IsLineTerminator(k[j]))
               && (forall j :: 1 <= j < |k| ==> k[j] != '}'))
    ensures IsTokenText("${" + k + "}") ==> KeyOf("${" + k + "}") == k
  {
    var t := "${" + k + "}";
    if |k| >= 1 && (forall j :: 0 <= j < |k| ==> !IsLineTerminator(k[j]))
       && (forall j :: 1 <= j < |k| ==> k[j] != '}') {
      forall j | 2 <= j < |t| - 1 ensures !IsLineTerminator(t[j]) && (j >= 3 ==> t[j] != '}') {
        assert t[j] == k[j - 2];
      }
    }
    if IsTokenText(t) {
      forall j | 0 <= j < |k| ensures !IsLineTerminator(k[j]) && (j >= 1 ==> k[j] != '}') {
        assert t[j + 2] == k[j];
      }
    }
  }

  /** A string that is exactly one token is the whole of its own scan, and
      conversely: this is what makes an attribute "watched". */
  lemma {:induction false} WholeValueIsToken(v: string)
    ensures v in Scan(v) <==> IsTokenText(v)
    ensures IsTokenText(v) ==> Scan(v) == [v]
  {
    if IsTokenText(v) {
      assert MatchEnd(v, 0) == Some(|v|);
      assert Spans(v, 0) == [(0, |v|)] + Spans(v, |v|);
      assert Spans(v, 0) == [(0, |v|)];
      assert v[0..|v|] == v;
    }
    if v in Scan(v) {
      var sp := Spans(v, 0);
      var k :| 0 <= k < |sp| && Scan(v)[k] == v;
      assert IsMatchAt(v, sp[k].0, sp[k].1);
      assert |v[sp[k].0 .. sp[k].1]| == |v|;
      assert sp[k].0 == 0 && sp[k].1 == |v|;
      assert v[0..|v|] == v;
    }
  }

  /** A stretch without `$` starts no match, so the search passes over it. */
  lemma {:induction false} SpansSkip(s: string, i: nat, j: nat)
    requires i <= j <= |s|
    requires forall k :: i <= k < j ==> s[k] != '$'
    ensures Spans(s, i) == Spans(s, j)
    decreases j - i
  {
    if i < j {
      assert MatchEnd(s, i).None?;
      SpansSkip(s, i + 1, j);
    }
  }
}
