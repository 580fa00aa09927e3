/** The three JavaScript string operations the compiler relies on:
    `String.prototype.replace` with a string pattern (first occurrence
    only), `String.prototype.trim`, and `Array.prototype.join`. */
module Strings {
  import opened Types

  /** JavaScript's WhiteSpace and LineTerminator code points: the set
      `trim` removes (TAB, LF, VT, FF, CR, SPACE, NBSP, U+1680,
      U+2000..U+200A, LS, PS, U+202F, U+205F, U+3000, BOM). */
  predicate IsWhitespace(c: char) {
    c == '\t' || c == '\n' || c == '\U{000B}' || c == '\U{000C}' || c == '\r' ||
    c == ' ' || c == '\U{00A0}' || c == '\U{1680}' ||
    ('\U{2000}' <= c <= '\U{200A}') ||
    c == '\U{2028}' || c == '\U{2029}' || c == '\U{202F}' || c == '\U{205F}' ||
    c == '\U{3000}' || c == '\U{FEFF}'
  }

  /** Drops leading whitespace. */
  function TrimStart(s: string): (r: string)
    ensures |r| <= |s| && r == s[|s| - |r|..]
    ensures forall k :: 0 <= k < |s| - |r| ==> IsWhitespace(s[k])
    ensures r == [] || !IsWhitespace(r[0])
  {
    if s != [] && IsWhitespace(s[0]) then TrimStart(s[1..]) else s
  }

  /** Drops trailing whitespace. */
  function TrimEnd(s: string): (r: string)
    ensures |r| <= |s| && r == s[..|r|]
    ensures forall k :: |r| <= k < |s| ==> IsWhitespace(s[k])
    ensures r == [] || !IsWhitespace(r[|r| - 1])
  {
    if s != [] && IsWhitespace(s[|s| - 1]) then TrimEnd(s[..|s| - 1]) else s
  }

  /** `r` is the slice of `s` starting at `i`, with nothing but whitespace
      before and after it. */
  predicate CutAt(s: string, r: string, i: nat) {
    i + |r| <= |s| && r == s[i..i + |r|] &&
    (forall k :: 0 <= k < i ==> IsWhitespace(s[k])) &&
    (forall k :: i + |r| <= k < |s| ==> IsWhitespace(s[k]))
  }

  /** `s.trim()`: the longest slice of `s` that neither starts nor ends with
      whitespace, once only whitespace has been cut off either end. */
  function Trim(s: string): (r: string)
    ensures r == [] || (!IsWhitespace(r[0]) && !IsWhitespace(r[|r| - 1]))
    ensures (forall k :: 0 <= k < |s| ==> IsWhitespace(s[k])) ==> r == []
    ensures exists i: nat :: CutAt(s, r, i)
  {
    var t := TrimStart(s);
    var r := TrimEnd(t);
    var i := |s| - |t|;
    assert r == s[i..i + |r|];
    assert forall k :: i + |r| <= k < |s| ==> IsWhitespace(s[k]) by {
      forall k | i + |r| <= k < |s| ensures IsWhitespace(s[k]) {
        assert s[k] == t[k - i];
      }
    }
    assert CutAt(s, r, i);
    r
  }

  /** A string without surrounding whitespace is its own trim. */
  lemma TrimIdentity(s: string)
    requires s == [] || (!IsWhitespace(s[0]) && !IsWhitespace(s[|s| - 1]))
    ensures Trim(s) == s
  {
  }

  /** True when `pat` occurs in `s` at index `i`. */
  predicate OccursAt(s: string, pat: string, i: nat) {
    i + |pat| <= |s| && s[i..i + |pat|] == pat
  }

  /** `s.indexOf(pat, from)`: a linear scan from `from`. */
  function FindFrom(s: string, pat: string, from: nat): (r: Search)
    decreases |s| - from
    ensures r.Found? ==> from <= r.index && r.index + |pat| <= |s|
  {
    if from + |pat| > |s| then NotFound
    else if s[from..from + |pat|] == pat then Found(from)
    else FindFrom(s, pat, from + 1)
  }

  /** The scan finds the first occurrence at or after `from`, and reports
      none only when there is none. */
  lemma {:induction false} FindFromFirst(s: string, pat: string, from: nat)
    decreases |s| - from
    ensures FindFrom(s, pat, from).Found? ==>
      var i := FindFrom(s, pat, from).index;
      from <= i && OccursAt(s, pat, i) && forall k :: from <= k < i ==> !OccursAt(s, pat, k)
    ensures FindFrom(s, pat, from).NotFound? ==> forall k :: from <= k ==> !OccursAt(s, pat, k)
  {
    if from + |pat| <= |s| && s[from..from + |pat|] != pat {
      FindFromFirst(s, pat, from + 1);
    }
  }

  /** Without an occurrence of the pattern, `replace` changes nothing. */
  lemma ReplaceFirstAbsent(s: string, pat: string, rep: string)
    requires forall k :: !OccursAt(s, pat, k)
    ensures ReplaceFirst(s, pat, rep) == s
  {
    FindFromFirst(s, pat, 0);
  }

  datatype Search = NotFound | Found(index: nat)

  /** `s.replace(pat, rep)` with a string pattern: only the first occurrence
      is replaced; without an occurrence `s` is returned unchanged. */
  function ReplaceFirst(s: string, pat: string, rep: string): (r: string)
  {
    match FindFrom(s, pat, 0)
    case NotFound => s
    case Found(i) => s[..i] + rep + s[i + |pat|..]
  }

  /** No character of `s` is an opening brace. */
  predicate BraceFree(s: string) {
    forall i :: 0 <= i < |s| ==> s[i] != '{'
  }

  lemma BraceFreeAppend(a: string, b: string)
    requires BraceFree(a) && BraceFree(b)
    ensures BraceFree(a + b)
  {
    forall i | 0 <= i < |a + b| ensures (a + b)[i] != '{' {
      if i >= |a| {
        assert (a + b)[i] == b[i - |a|];
      }
    }
  }

  /** Every string of `ss` is brace-free. */
  ghost predicate BraceFreeAll(ss: seq<string>) {
    forall k :: 0 <= k < |ss| ==> BraceFree(ss[k])
  }

  /** `lits[0] + vals[0] + lits[1] + ... + vals[n-1] + lits[n]`. */
  function Interleave(lits: seq<string>, vals: seq<string>): string
    requires |lits| == |vals| + 1
  {
    if vals == [] then lits[0]
    else Interleave(lits[..|lits| - 1], vals[..|vals| - 1]) + vals[|vals| - 1] + lits[|lits| - 1]
  }

  /** Interleaving peels off from the front as well. */
  lemma {:induction false} InterleaveFront(lits: seq<string>, vals: seq<string>)
    requires |lits| == |vals| + 1 && vals != []
    ensures Interleave(lits, vals) == lits[0] + vals[0] + Interleave(lits[1..], vals[1..])
  {
    var n := |vals|;
    if n > 1 {
      var l0, v0 := lits[..n], vals[..n - 1];
      InterleaveFront(l0, v0);
      assert l0[1..] == lits[1..][..n - 1] && v0[1..] == vals[1..][..n - 2];
      AppendAssoc(lits[0] + vals[0], Interleave(lits[1..][..n - 1], vals[1..][..n - 2]), vals[n - 1]);
      AppendAssoc(lits[0] + vals[0], Interleave(lits[1..][..n - 1], vals[1..][..n - 2]) + vals[n - 1], lits[n]);
    }
  }

  /** If `pat` starts with a brace and the text before a given occurrence of
      `pat` has no brace, then that occurrence is the first one, and it is
      the one `ReplaceFirst` rewrites. */
  lemma {:induction false} ReplaceFirstAfterBraceFree(a: string, pat: string, b: string, rep: string)
    requires |pat| > 0 && pat[0] == '{'
    requires BraceFree(a)
    ensures ReplaceFirst(a + pat + b, pat, rep) == a + rep + b
  {
    var s := a + pat + b;
    FindFromBraceFree(a, pat, b, 0);
    assert s[..|a|] == a;
    assert s[|a| + |pat|..] == b;
  }

  lemma {:induction false} FindFromBraceFree(a: string, pat: string, b: string, from: nat)
    requires |pat| > 0 && pat[0] == '{'
    requires BraceFree(a)
    requires from <= |a|
    ensures FindFrom(a + pat + b, pat, from) == Found(|a|)
    decreases |a| - from
  {
    var s := a + pat + b;
    if from == |a| {
      assert s[from..from + |pat|] == pat;
    } else {
      assert s[from] == a[from];
      assert s[from..from + |pat|][0] == s[from];
      FindFromBraceFree(a, pat, b, from + 1);
    }
  }

  /** `parts.join(sep)`. */
  function Join(parts: seq<string>, sep: string): string
  {
    if |parts| == 0 then ""
    else if |parts| == 1 then parts[0]
    else parts[0] + sep + Join(parts[1..], sep)
  }
}
