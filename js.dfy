/** The JavaScript built-ins that the to-do component relies on, stated as
    functions on values: String.prototype.trim, the truthiness of an optional
    string, and Array.prototype.map, filter, findIndex and splice.  Only the
    behaviour the component can observe is modelled. */
module Js {

  datatype Option<+T> = None | Some(value: T)

  /** JavaScript truthiness of a value that is either a string or null/undefined:
      null, undefined and the empty string are falsy. */
  predicate Truthy(o: Option<string>) {
    o.Some? && o.value != ""
  }

  /** `o || ''` for a string-or-absent value. */
  function OrEmpty(o: Option<string>): (s: string)
    ensures Truthy(o) ==> s == o.value
    ensures !Truthy(o) ==> s == ""
  {
    if o.Some? then o.value else ""
  }

  // ---------------------------------------------------------------------------
  // String.prototype.trim
  // ---------------------------------------------------------------------------

  /** The characters trim removes: ECMAScript WhiteSpace (TAB, VT, FF, ZWNBSP and
      every Unicode space separator) and LineTerminator (LF, CR, LS, PS). */
  predicate IsWhitespace(c: char) {
    c == '\t' || c == '\n' || c == '\U{B}' || c == '\U{C}' || c == '\r' ||
    c == ' ' || c == '\U{A0}' || c == '\U{1680}' ||
    ('\U{2000}' <= c <= '\U{200A}') ||
    c == '\U{2028}' || c == '\U{2029}' || c == '\U{202F}' || c == '\U{205F}' ||
    c == '\U{3000}' || c == '\U{FEFF}'
  }

  /** Every character of s is whitespace (vacuously true of ""). */
  predicate Blank(s: string) {
    forall i :: 0 <= i < |s| ==> IsWhitespace(s[i])
  }

  /** s without its trailing whitespace. */
  function TrimEnd(s: string): (r: string)
    ensures |r| <= |s| && r == s[..|r|]
    ensures Blank(s[|r|..])
    ensures r == [] || !IsWhitespace(r[|r| - 1])
  {
    if |s| > 0 && IsWhitespace(s[|s| - 1]) then
      var r := TrimEnd(s[..|s| - 1]);
      assert s[|r|..] == s[..|s| - 1][|r|..] + [s[|s| - 1]];
      r
    else s
  }

  /** String.prototype.trim: s without the whitespace at either end.  The
      result is empty exactly when s is blank, and otherwise starts and ends
      with a character that is not whitespace; TrimContents says which run of
      s it is. */
  function Trim(s: string): (r: string)
    ensures |r| <= |s|
    ensures r == [] <==> Blank(s)
    ensures r == [] || (!IsWhitespace(r[0]) && !IsWhitespace(r[|r| - 1]))
  {
    if |s| > 0 && IsWhitespace(s[0]) then
      var r := Trim(s[1..]);
      assert Blank(s) <==> Blank(s[1..]) by {
        assert forall i :: 1 <= i < |s| ==> s[i] == s[1..][i - 1];
      }
      r
    else
      var r := TrimEnd(s);
      assert r == [] ==> Blank(s) by {
        if r == [] { assert s[|r|..] == s; }
      }
      assert r != [] ==> r[0] == s[0];
      r
  }

  /** r is s with a blank prefix of length a and a blank suffix cut off. */
  predicate CutAt(s: string, a: int, r: string) {
    0 <= a && a + |r| <= |s| && Blank(s[..a]) && r == s[a..a + |r|] && Blank(s[a + |r|..])
  }

  /** trim keeps a contiguous run of s and cuts off only whitespace: a blank
      prefix before it and a blank suffix after it. */
  lemma {:induction false} TrimContents(s: string)
    ensures exists a :: CutAt(s, a, Trim(s))
  {
    var r := Trim(s);
    if |s| > 0 && IsWhitespace(s[0]) {
      var t := s[1..];
      assert r == Trim(t);
      TrimContents(t);
      var a :| CutAt(t, a, r);
      CutAtLeading(s, a, r);
    } else {
      assert r == TrimEnd(s);
      assert CutAt(s, 0, r);
    }
  }

  /** A cut of s[1..] is a cut of s with one more character in its blank prefix
      when s starts with whitespace. */
  lemma CutAtLeading(s: string, a: int, r: string)
    requires |s| > 0 && IsWhitespace(s[0]) && CutAt(s[1..], a, r)
    ensures CutAt(s, a + 1, r)
  {
    var t := s[1..];
    assert s[..a + 1] == [s[0]] + t[..a];
    assert forall i :: 0 <= i < |r| ==> r[i] == t[a + i] == s[a + 1 + i];
    assert s[a + 1 + |r|..] == t[a + |r|..];
  }

  /** Trimming is idempotent. */
  lemma TrimIdempotent(s: string)
    ensures Trim(Trim(s)) == Trim(s)
  {
    var r := Trim(s);
    if r != [] {
      assert TrimEnd(r) == r;
    }
  }

  // ---------------------------------------------------------------------------
  // Array.prototype.map, filter, findIndex
  // ---------------------------------------------------------------------------

  /** `s.map(f)`. */
  function Map<T, U>(s: seq<T>, f: T -> U): (r: seq<U>)
    ensures |r| == |s|
    ensures forall i :: 0 <= i < |s| ==> r[i] == f(s[i])
  {
    if s == [] then [] else [f(s[0])] + Map(s[1..], f)
  }

  /** `s.filter(p)`: the elements of s that satisfy p. */
  function Filter<T>(s: seq<T>, p: T -> bool): (r: seq<T>)
    ensures |r| <= |s|
  {
    if s == [] then []
    else if p(s[0]) then [s[0]] + Filter(s[1..], p)
    else Filter(s[1..], p)
  }

  /** filter keeps every element that satisfies p as often as s has it, and
      drops every other one. */
  lemma {:induction false} FilterCount<T>(s: seq<T>, p: T -> bool, x: T)
    ensures multiset(Filter(s, p))[x] == if p(x) then multiset(s)[x] else 0
  {
    if s != [] {
      FilterCount(s[1..], p, x);
      assert s == [s[0]] + s[1..];
    }
  }

  /** An element is kept by filter exactly when it is in s and satisfies p. */
  lemma FilterMember<T>(s: seq<T>, p: T -> bool, x: T)
    ensures x in Filter(s, p) <==> x in s && p(x)
  {
    FilterCount(s, p, x);
    assert x in Filter(s, p) <==> multiset(Filter(s, p))[x] > 0;
  }

  /** a occurs in b in order, possibly with gaps (greedy embedding). */
  predicate IsSubsequence<T(==)>(a: seq<T>, b: seq<T>)
    decreases |b|
  {
    a == [] ||
    (b != [] && if a[0] == b[0] then IsSubsequence(a[1..], b[1..]) else IsSubsequence(a, b[1..]))
  }

  /** filter keeps the survivors in their original relative order. */
  lemma {:induction false} FilterIsSubsequence<T>(s: seq<T>, p: T -> bool)
    ensures IsSubsequence(Filter(s, p), s)
  {
    if s != [] {
      FilterIsSubsequence(s[1..], p);
      var rest := Filter(s[1..], p);
      if !p(s[0]) {
        SubsequenceSkip(rest, s[1..], s[0]);
      }
    }
  }

  /** Prepending an element to the larger sequence keeps an embedding. */
  lemma {:induction false} SubsequenceSkip<T>(a: seq<T>, b: seq<T>, x: T)
    requires IsSubsequence(a, b)
    ensures IsSubsequence(a, [x] + b)
    decreases |b|, 1
  {
    if a != [] && a[0] == x {
      assert b != [];
      if a[0] == b[0] {
        SubsequenceSkip(a[1..], b[1..], b[0]);
        assert [b[0]] + b[1..] == b;
      } else {
        SubsequenceTail(a, b);
      }
      assert ([x] + b)[1..] == b;
    } else if a != [] {
      assert ([x] + b)[1..] == b;
    }
  }

  /** Dropping the first element of the smaller sequence keeps an embedding. */
  lemma {:induction false} SubsequenceTail<T>(a: seq<T>, b: seq<T>)
    requires a != [] && IsSubsequence(a, b)
    ensures IsSubsequence(a[1..], b)
    decreases |b|, 0
  {
    assert b != [];
    if a[0] == b[0] {
      SubsequenceSkip(a[1..], b[1..], b[0]);
      assert [b[0]] + b[1..] == b;
    } else {
      SubsequenceTail(a, b[1..]);
      SubsequenceSkip(a[1..], b[1..], b[0]);
      assert [b[0]] + b[1..] == b;
    }
  }

  /** Filtering twice by the same predicate is filtering once. */
  lemma {:induction false} FilterIdempotent<T>(s: seq<T>, p: T -> bool)
    ensures Filter(Filter(s, p), p) == Filter(s, p)
  {
    if s != [] {
      FilterIdempotent(s[1..], p);
      var rest := Filter(s[1..], p);
      if p(s[0]) {
        assert ([s[0]] + rest)[1..] == rest;
      }
    }
  }

  /** A filter that rejects nothing returns its input. */
  lemma {:induction false} FilterKeepsAll<T>(s: seq<T>, p: T -> bool)
    requires forall i :: 0 <= i < |s| ==> p(s[i])
    ensures Filter(s, p) == s
  {
    if s != [] {
      FilterKeepsAll(s[1..], p);
      assert [s[0]] + s[1..] == s;
    }
  }

  /** `s.findIndex(p)`: the first index whose element satisfies p, or -1. */
  function FindIndex<T>(s: seq<T>, p: T -> bool): (r: int)
    ensures -1 <= r < |s|
    ensures r == -1 <==> forall i :: 0 <= i < |s| ==> !p(s[i])
    ensures 0 <= r ==> p(s[r]) && forall i :: 0 <= i < r ==> !p(s[i])
  {
    if s == [] then -1
    else if p(s[0]) then 0
    else
      var k := FindIndex(s[1..], p);
      assert forall i :: 1 <= i < |s| ==> s[i] == s[1..][i - 1];
      if k == -1 then -1 else k + 1
  }

  // ---------------------------------------------------------------------------
  // Array.prototype.splice
  // ---------------------------------------------------------------------------

  /** How splice reads its start argument against a length: a negative start
      counts from the end, and the result is clamped to [0, len]. */
  function RelativeIndex(start: int, len: nat): (k: nat)
    ensures k <= len
    ensures 0 <= start <= len ==> k == start
    ensures start < 0 && 0 <= (len as int) + start ==> k == (len as int) + start
    ensures (len as int) + start < 0 ==> k == 0
    ensures len < start ==> k == len
  {
    if start < 0 then (if len + start < 0 then 0 else len + start)
    else if start > len then len
    else start
  }

  /** The array after a splice, and the array of removed elements it returns. */
  datatype Spliced<T> = Spliced(after: seq<T>, removed: seq<T>)

  /** `s.splice(start, deleteCount, ...items)` on a copy of s: deleteCount is
      clamped to what is left from the start index on. */
  function Splice<T>(s: seq<T>, start: int, deleteCount: int, items: seq<T>): (r: Spliced<T>)
    ensures var k := RelativeIndex(start, |s|);
      |r.removed| == (if deleteCount < 0 then 0 else if deleteCount > |s| - k then |s| - k else deleteCount)
    ensures |r.after| == |s| - |r.removed| + |items|
  {
    var k := RelativeIndex(start, |s|);
    var d := if deleteCount < 0 then 0 else if deleteCount > |s| - k then |s| - k else deleteCount;
    Spliced(s[..k] + items + s[k + d..], s[k..k + d])
  }

  /** What splice leaves: the elements before the start index, then the inserted
      items, then the elements after the removed ones; the removed elements are
      the run that starts at the start index. */
  lemma SpliceContents<T>(s: seq<T>, start: int, deleteCount: int, items: seq<T>)
    ensures var r, k := Splice(s, start, deleteCount, items), RelativeIndex(start, |s|);
      && r.removed == s[k..k + |r.removed|]
      && r.after[..k] == s[..k]
      && r.after[k..k + |items|] == items
      && r.after[k + |items|..] == s[k + |r.removed|..]
  {
    var r, k := Splice(s, start, deleteCount, items), RelativeIndex(start, |s|);
    var d := |r.removed|;
    assert r.after == s[..k] + items + s[k + d..];
    assert r.after[..k] == s[..k];
    assert r.after[k..k + |items|] == items;
    assert r.after[k + |items|..] == s[k + d..];
  }

  /** splice(start, 1) with a start index from findIndex (-1 or a valid index)
      removes one element: the one at that index, or the last one for -1. */
  lemma SpliceRemovesOne<T>(s: seq<T>, start: int)
    requires |s| > 0 && -1 <= start < |s|
    ensures var r, k := Splice(s, start, 1, []), RelativeIndex(start, |s|);
      k < |s| && r.removed == [s[k]] && r.after == s[..k] + s[k + 1..]
  {
    SpliceContents(s, start, 1, []);
  }

  /** splice(k, 0, x) with 0 <= k <= |s| puts x at index k and moves nothing else. */
  lemma SpliceInsertsOne<T>(s: seq<T>, k: nat, x: T)
    requires k <= |s|
    ensures var r := Splice(s, k, 0, [x]).after;
      |r| == |s| + 1 && r[k] == x && r[..k] + r[k + 1..] == s
  {
    SpliceContents(s, k, 0, [x]);
    var r := Splice(s, k, 0, [x]).after;
    assert r[k + 1..] == s[k..];
    assert s == s[..k] + s[k..];
  }
}
