/** Python `str` operations the script relies on: `split` with an explicit
    separator, `sep.join`, `strip()` with no argument, the `in` operator on
    strings and `find`.  A Python string is a sequence of code points, which
    is what `string` (`seq<char>`, Unicode scalar values) is here. */
module Text {

  /** Python's `str.isspace()` on one code point: the characters that
      `str.strip()` removes when called without an argument. */
  predicate IsSpace(c: char) {
    || ('\t' <= c <= '\r')                 // \t \n \x0b \x0c \r
    || ('\U{1C}' <= c <= '\U{1F}')         // file, group, record and unit separators
    || c == ' '
    || c == '\U{85}' || c == '\U{A0}' || c == '\U{1680}'
    || ('\U{2000}' <= c <= '\U{200A}')
    || c == '\U{2028}' || c == '\U{2029}' || c == '\U{202F}'
    || c == '\U{205F}' || c == '\U{3000}'
  }

  /** Neither starts nor ends with whitespace. */
  predicate IsStripped(s: string) {
    s == [] || (!IsSpace(s[0]) && !IsSpace(s[|s| - 1]))
  }

  /** Every character of `s` from position `i` up to `j` is whitespace. */
  predicate SpaceBetween(s: string, i: nat, j: nat)
    requires i <= j <= |s|
  {
    forall k :: i <= k < j ==> IsSpace(s[k])
  }

  /** `s.lstrip()` */
  function StripLeft(s: string): (r: string)
    ensures |r| <= |s| && r == s[|s| - |r|..]
    ensures r != [] ==> !IsSpace(r[0])
  {
    if s != [] && IsSpace(s[0]) then StripLeft(s[1..]) else s
  }

  /** `s.rstrip()` */
  function StripRight(s: string): (r: string)
    ensures |r| <= |s| && r == s[..|r|]
    ensures r != [] ==> !IsSpace(r[|r| - 1])
  {
    if s != [] && IsSpace(s[|s| - 1]) then StripRight(s[..|s| - 1]) else s
  }

  /** `lstrip` removes only whitespace. */
  lemma {:induction false} StripLeftSpace(s: string)
    ensures SpaceBetween(s, 0, |s| - |StripLeft(s)|)
    decreases |s|
  {
    if s != [] && IsSpace(s[0]) {
      StripLeftSpace(s[1..]);
      forall k | 0 < k < |s| - |StripLeft(s)| ensures IsSpace(s[k]) {
        assert s[k] == s[1..][k - 1];
      }
    }
  }

  /** `rstrip` removes only whitespace. */
  lemma {:induction false} StripRightSpace(s: string)
    ensures SpaceBetween(s, |StripRight(s)|, |s|)
    decreases |s|
  {
    if s != [] && IsSpace(s[|s| - 1]) {
      StripRightSpace(s[..|s| - 1]);
      forall k | |StripRight(s)| <= k < |s| - 1 ensures IsSpace(s[k]) {
        assert s[k] == s[..|s| - 1][k];
      }
    }
  }

  /** Where `Strip(s)` starts in `s`: the length of the leading whitespace. */
  function StripOffset(s: string): (r: nat) {
    |s| - |StripLeft(s)|
  }

  /** `s.strip()`: a slice of `s`, starting at `StripOffset(s)`, that
      neither starts nor ends with whitespace. */
  function Strip(s: string): (r: string)
    ensures IsStripped(r)
    ensures StripOffset(s) + |r| <= |s| && r == s[StripOffset(s)..StripOffset(s) + |r|]
  {
    StripRight(StripLeft(s))
  }

  /** Only whitespace is removed: everything of `s` before and after
      `Strip(s)` is whitespace. */
  lemma StripRemovesOnlySpace(s: string)
    ensures var i := StripOffset(s);
            i + |Strip(s)| <= |s|
            && SpaceBetween(s, 0, i) && SpaceBetween(s, i + |Strip(s)|, |s|)
  {
    var l := StripLeft(s);
    var i := |s| - |l|;
    var r := StripRight(l);
    StripLeftSpace(s);
    StripRightSpace(l);
    forall k | i + |r| <= k < |s| ensures IsSpace(s[k]) {
      assert s[k] == l[k - i];
    }
  }

  /** Stripping a stripped string changes nothing, so `Strip` is
      idempotent. */
  lemma StripStripped(s: string)
    requires IsStripped(s)
    ensures Strip(s) == s
  {
  }

  /** `sub` starts at position `p` of `s`. */
  predicate OccursAt(s: string, sub: string, p: nat) {
    p + |sub| <= |s| && s[p..p + |sub|] == sub
  }

  /** Python's `sub in s`. */
  predicate Contains(s: string, sub: string) {
    exists p: nat :: p <= |s| - |sub| && OccursAt(s, sub, p)
  }

  /** An occurrence in a slice of `s` is an occurrence in `s`. */
  lemma OccursInSlice(s: string, i: nat, j: nat, sub: string, p: nat)
    requires i <= j <= |s|
    requires OccursAt(s[i..j], sub, p)
    ensures OccursAt(s, sub, i + p)
  {
    var inner, outer := s[i..j][p..p + |sub|], s[i + p..i + p + |sub|];
    assert forall t :: 0 <= t < |sub| ==> inner[t] == outer[t];
    assert inner == outer;
  }

  /** Whatever a slice of `s` contains, `s` contains. */
  lemma ContainsInSlice(s: string, i: nat, j: nat, sub: string)
    requires i <= j <= |s|
    requires Contains(s[i..j], sub)
    ensures Contains(s, sub)
  {
    var p: nat :| p <= |s[i..j]| - |sub| && OccursAt(s[i..j], sub, p);
    OccursInSlice(s, i, j, sub, p);
  }

  /** Whatever `Strip(s)` contains, `s` contains. */
  lemma ContainsInStrip(s: string, sub: string)
    requires Contains(Strip(s), sub)
    ensures Contains(s, sub)
  {
    var r, i := Strip(s), StripOffset(s);
    ContainsInSlice(s, i, i + |r|, sub);
  }

  /** The leftmost occurrence of `sub` at or after position `from`, or `|s|`
      when there is none (see `FindFromIsLeftmost`). */
  function FindFrom(s: string, sub: string, from: nat): (r: nat)
    requires |sub| > 0 && from <= |s|
    ensures from <= r <= |s|
    ensures r < |s| ==> r + |sub| <= |s|
    decreases |s| - from
  {
    if from + |sub| > |s| then |s|
    else if OccursAt(s, sub, from) then from
    else FindFrom(s, sub, from + 1)
  }

  /** `FindFrom` stops at an occurrence, and at the first one. */
  lemma {:induction false} FindFromIsLeftmost(s: string, sub: string, from: nat)
    requires |sub| > 0 && from <= |s|
    ensures var r := FindFrom(s, sub, from);
            && (r < |s| ==> OccursAt(s, sub, r))
            && (forall q: nat :: from <= q < r ==> !OccursAt(s, sub, q))
            && (r == |s| ==> forall q: nat :: from <= q ==> !OccursAt(s, sub, q))
    decreases |s| - from
  {
    if from + |sub| <= |s| && !OccursAt(s, sub, from) {
      FindFromIsLeftmost(s, sub, from + 1);
    }
  }

  /** Python's `s.find(sub)`, except that "not found" is `|s|` rather than -1
      (see `FindIsLeftmost`). */
  function Find(s: string, sub: string): (r: nat)
    requires |sub| > 0
    ensures r <= |s|
    ensures r < |s| ==> r + |sub| <= |s|
  {
    FindFrom(s, sub, 0)
  }

  /** `Find` gives the position of the leftmost occurrence of `sub`, and
      `|s|` exactly when `s` does not contain `sub`. */
  lemma FindIsLeftmost(s: string, sub: string)
    requires |sub| > 0
    ensures var r := Find(s, sub);
            && (r < |s| ==> OccursAt(s, sub, r))
            && (forall q: nat :: q < r ==> !OccursAt(s, sub, q))
            && (r == |s| <==> !Contains(s, sub))
  {
    FindFromIsLeftmost(s, sub, 0);
  }

  /** The leftmost occurrence is the only position with no occurrence
      before it. */
  lemma FindUnique(s: string, sub: string, r: nat)
    requires |sub| > 0 && r <= |s|
    requires r < |s| ==> OccursAt(s, sub, r)
    requires forall q: nat :: q < r ==> !OccursAt(s, sub, q)
    requires r == |s| ==> !Contains(s, sub)
    ensures Find(s, sub) == r
  {
    FindIsLeftmost(s, sub);
    var f := Find(s, sub);
    assert f < |s| ==> OccursAt(s, sub, f);
    assert r < |s| ==> OccursAt(s, sub, r);
  }

  /** Python's `s.split(sep)` for a non-empty `sep`: the text before the
      leftmost occurrence of `sep`, then the split of what follows it; a
      string without `sep` is one piece. */
  function Split(s: string, sep: string): (r: seq<string>)
    requires |sep| > 0
    ensures |r| >= 1
    decreases |s|
  {
    var f := Find(s, sep);
    if f == |s| then [s]
    else [s[..f]] + Split(s[f + |sep|..], sep)
  }

  /** A non-empty sequence is its front followed by its last element. */
  lemma InitLast<T>(s: seq<T>)
    requires |s| > 0
    ensures s == s[..|s| - 1] + [s[|s| - 1]]
  {
  }

  /** Python's `sep.join(parts)`. */
  function Join(sep: string, parts: seq<string>): (r: string) {
    if |parts| == 0 then ""
    else if |parts| == 1 then parts[0]
    else parts[0] + sep + Join(sep, parts[1..])
  }

  /** Joining the pieces of a split with the same separator gives back the
      original string. */
  lemma {:induction false} JoinSplit(s: string, sep: string)
    requires |sep| > 0
    ensures Join(sep, Split(s, sep)) == s
    decreases |s|
  {
    var f := Find(s, sep);
    if f < |s| {
      var rest := s[f + |sep|..];
      SplitStep(s, sep);
      FindIsLeftmost(s, sep);
      JoinSplit(rest, sep);
      JoinCons(sep, s[..f], Split(rest, sep));
      SliceAround(s, f, |sep|);
    }
  }

  /** Joining a part in front of a non-empty list. */
  lemma JoinCons(sep: string, first: string, parts: seq<string>)
    requires |parts| >= 1
    ensures Join(sep, [first] + parts) == first + sep + Join(sep, parts)
  {
    assert ([first] + parts)[1..] == parts;
  }

  /** A sequence is what comes before position `i`, the `n` elements from
      `i` on, and what follows them. */
  lemma SliceAround<T>(s: seq<T>, i: nat, n: nat)
    requires i + n <= |s|
    ensures s == s[..i] + s[i..i + n] + s[i + n..]
  {
  }

  /** Joining a non-empty list with one more part appended. */
  lemma {:induction false} JoinSnoc(sep: string, parts: seq<string>, last: string)
    requires |parts| >= 1
    ensures Join(sep, parts + [last]) == Join(sep, parts) + sep + last
    decreases |parts|
  {
    if |parts| == 1 {
      assert (parts + [last])[1..] == [last];
    } else {
      JoinSnoc(sep, parts[1..], last);
      assert (parts + [last])[1..] == parts[1..] + [last];
    }
  }

  /** The text before the leftmost occurrence holds no occurrence. */
  lemma PrefixBeforeFindFree(s: string, sep: string)
    requires |sep| > 0
    ensures !Contains(s[..Find(s, sep)], sep)
  {
    var f := Find(s, sep);
    FindIsLeftmost(s, sep);
    forall p: nat | p <= f - |sep| ensures !OccursAt(s[..f], sep, p) {
      if OccursAt(s[..f], sep, p) {
        OccursInSlice(s, 0, f, sep, p);
      }
    }
  }

  /** Piece `k` of a split does not contain the separator. */
  lemma {:induction false} SplitPieceFree(s: string, sep: string, k: nat)
    requires |sep| > 0 && k < |Split(s, sep)|
    ensures !Contains(Split(s, sep)[k], sep)
    decreases |s|
  {
    SplitAtFind(s, sep);
    if k == 0 {
      PrefixBeforeFindFree(s, sep);
    } else {
      var f := Find(s, sep);
      SplitPieceFree(s[f + |sep|..], sep, k - 1);
      assert Split(s, sep)[k] == Split(s[f + |sep|..], sep)[k - 1];
    }
  }

  /** A slice of a string free of `sub` is free of it. */
  lemma SliceKeepsFree(s: string, i: nat, j: nat, sub: string)
    requires i <= j <= |s| && !Contains(s, sub)
    ensures !Contains(s[i..j], sub)
  {
    if Contains(s[i..j], sub) {
      ContainsInSlice(s, i, j, sub);
    }
  }

  /** The pieces of a split hold no substring the whole string did not. */
  lemma {:induction false} SplitPieceKeepsFree(s: string, sep: string, sub: string, k: nat)
    requires |sep| > 0 && k < |Split(s, sep)| && !Contains(s, sub)
    ensures !Contains(Split(s, sep)[k], sub)
    decreases |s|
  {
    SplitAtFind(s, sep);
    var f := Find(s, sep);
    if k == 0 {
      SliceKeepsFree(s, 0, f, sub);
      assert s[..f] == s[0..f];
    } else {
      SliceKeepsFree(s, f + |sep|, |s|, sub);
      assert s[f + |sep|..] == s[f + |sep|..|s|];
      SplitPieceKeepsFree(s[f + |sep|..], sep, sub, k - 1);
      assert Split(s, sep)[k] == Split(s[f + |sep|..], sep)[k - 1];
    }
  }

  /** No piece of a split contains the separator. */
  lemma SplitPiecesFree(s: string, sep: string)
    requires |sep| > 0
    ensures forall k :: 0 <= k < |Split(s, sep)| ==> !Contains(Split(s, sep)[k], sep)
  {
    forall k | 0 <= k < |Split(s, sep)| ensures !Contains(Split(s, sep)[k], sep) {
      SplitPieceFree(s, sep, k);
    }
  }

  /** Stripping cannot bring in a substring the text did not hold. */
  lemma StripKeepsFree(s: string, sub: string)
    requires !Contains(s, sub)
    ensures !Contains(Strip(s), sub)
  {
    if Contains(Strip(s), sub) {
      ContainsInStrip(s, sub);
    }
  }

  /** `sep in s` exactly when splitting on `sep` yields at least two pieces. */
  lemma ContainsIffSplits(s: string, sep: string)
    requires |sep| > 0
    ensures Contains(s, sep) <==> |Split(s, sep)| >= 2
  {
    FindIsLeftmost(s, sep);
  }

  /** The first piece is the text before the leftmost occurrence of `sep`;
      the remaining pieces are the split of what follows that occurrence. */
  lemma SplitAtFind(s: string, sep: string)
    requires |sep| > 0
    ensures Split(s, sep)[0] == s[..Find(s, sep)]
    ensures Find(s, sep) < |s| ==> Split(s, sep)[1..] == Split(s[Find(s, sep) + |sep|..], sep)
  {
    assert s[..|s|] == s;
  }

  /** Number of positions of `s` at which `sub` starts. */
  function Occurrences(s: string, sub: string): (r: nat)
    requires |sub| > 0
    decreases |s|
  {
    if |s| < |sub| then 0
    else (if OccursAt(s, sub, 0) then 1 else 0) + Occurrences(s[1..], sub)
  }

  /** An occurrence at position q >= 1 of `s` is an occurrence at q - 1 of
      `s[1..]`. */
  lemma OccursShift(s: string, sub: string, q: nat)
    requires 1 <= q && |s| >= 1
    ensures OccursAt(s, sub, q) == OccursAt(s[1..], sub, q - 1)
  {
    if q + |sub| <= |s| {
      var whole, tail := s[q..q + |sub|], s[1..][q - 1..q - 1 + |sub|];
      assert forall t :: 0 <= t < |sub| ==> whole[t] == tail[t];
      assert whole == tail;
    }
  }

  /** Positions before the first occurrence add nothing to the count. */
  lemma {:induction false} OccurrencesSkip(s: string, sub: string, p: nat)
    requires |sub| > 0 && p <= |s|
    requires forall q: nat :: q < p ==> !OccursAt(s, sub, q)
    ensures Occurrences(s, sub) == Occurrences(s[p..], sub)
    decreases p
  {
    if p > 0 {
      forall q: nat | q < p - 1 ensures !OccursAt(s[1..], sub, q) {
        OccursShift(s, sub, q + 1);
      }
      OccurrencesSkip(s[1..], sub, p - 1);
      assert s[1..][p - 1..] == s[p..];
    }
  }

  /** A two-character marker whose characters differ, such as "Q:" or "A:":
      two of its occurrences can never overlap. */
  predicate Marker(m: string) {
    |m| == 2 && m[0] != m[1]
  }

  /** Splitting on a marker yields one more piece than the marker has
      occurrences. */
  lemma {:induction false} SplitCount(s: string, m: string)
    requires Marker(m)
    ensures |Split(s, m)| == Occurrences(s, m) + 1
    decreases |s|
  {
    var f := Find(s, m);
    FindIsLeftmost(s, m);
    OccurrencesSkip(s, m, f);
    var t := s[f..];
    if f < |s| {
      assert OccursAt(t, m, 0) by { assert t[..2] == s[f..f + 2]; }
      assert !OccursAt(t[1..], m, 0) by {
        if |t[1..]| >= 2 { assert t[1..][0] == m[1]; }
      }
      assert t[1..][1..] == s[f + 2..];
      SplitCount(s[f + 2..], m);
    } else {
      assert t == [];
    }
  }

  /** Occurrences of `sub` in `a` are occurrences in `a + b` at the same
      place. */
  lemma OccursInPrefix(a: string, b: string, sub: string, q: nat)
    requires q + |sub| <= |a|
    ensures OccursAt(a + b, sub, q) == OccursAt(a, sub, q)
  {
    assert (a + b)[q..q + |sub|] == a[q..q + |sub|];
  }

  /** When `b` starts with the marker and `a` holds no marker, the leftmost
      marker of `a + b` is the one `b` starts with. */
  lemma FindBeforeMarker(a: string, b: string, m: string)
    requires Marker(m) && |b| >= 2 && b[..2] == m
    requires !Contains(a, m)
    ensures Find(a + b, m) == |a|
  {
    var ab := a + b;
    forall q: nat | q < |a| ensures !OccursAt(ab, m, q) {
      if q + 2 <= |a| {
        OccursInPrefix(a, b, m, q);
        assert !OccursAt(a, m, q);
      } else {
        assert ab[q + 1] == b[0] == m[0];
      }
    }
    assert ab[|a|..|a| + 2] == b[..2];
    FindUnique(ab, m, |a|);
  }

  /** A marker inside `a` is found at the same place in `a + b`. */
  lemma FindInPrefix(a: string, b: string, m: string)
    requires |m| > 0 && Find(a, m) < |a|
    ensures Find(a + b, m) == Find(a, m)
  {
    var f := Find(a, m);
    FindIsLeftmost(a, m);
    forall q: nat | q <= f ensures OccursAt(a + b, m, q) == OccursAt(a, m, q) {
      OccursInPrefix(a, b, m, q);
    }
    FindUnique(a + b, m, f);
  }

  /** One step of `Split` at an occurrence found by `Find`. */
  lemma SplitStep(s: string, sep: string)
    requires |sep| > 0 && Find(s, sep) < |s|
    ensures Find(s, sep) + |sep| <= |s|
    ensures Split(s, sep) == [s[..Find(s, sep)]] + Split(s[Find(s, sep) + |sep|..], sep)
  {
  }

  /** Concatenation is associative. */
  lemma AppendAssoc<T>(a: seq<T>, b: seq<T>, c: seq<T>)
    ensures (a + b) + c == a + (b + c)
  {
  }

  /** A string that starts with the marker splits into "" followed by the
      split of what comes after the marker. */
  lemma SplitLeadingMarker(b: string, m: string)
    requires Marker(m) && |b| >= 2 && b[..2] == m
    ensures Split(b, m)[1..] == Split(b[2..], m)
  {
    assert OccursAt(b, m, 0);
    FindUnique(b, m, 0);
    SplitStep(b, m);
  }

  /** A marker inside `a` is the first split point of `a + b` too. */
  lemma SplitPrefixStep(a: string, b: string, m: string)
    requires |m| > 0 && Find(a, m) < |a|
    ensures Find(a, m) + |m| <= |a|
    ensures Split(a + b, m) == [a[..Find(a, m)]] + Split(a[Find(a, m) + |m|..] + b, m)
  {
    var ab, f := a + b, Find(a, m);
    FindInPrefix(a, b, m);
    SplitStep(ab, m);
    assert ab[..f] == a[..f];
    assert ab[f + |m|..] == a[f + |m|..] + b;
  }

  /** With no marker found in `a`, the marker `b` starts with is the first split
      point of `a + b`. */
  lemma SplitBeforeMarker(a: string, b: string, m: string)
    requires Marker(m) && |b| >= 2 && b[..2] == m
    requires Find(a, m) == |a|
    ensures Split(a, m) == [a]
    ensures Split(a + b, m) == [a] + Split(b[2..], m)
  {
    var ab := a + b;
    FindIsLeftmost(a, m);
    FindBeforeMarker(a, b, m);
    SplitStep(ab, m);
    assert ab[..|a|] == a;
    assert ab[|a| + 2..] == b[2..];
  }

  /** When `b` starts with the marker, the split of `a + b` is the split of
      `a` followed by the pieces `b` contributes after its leading marker:
      no occurrence straddles the boundary. */
  lemma {:induction false} SplitAppendAtMarker(a: string, b: string, m: string)
    requires Marker(m) && |b| >= 2 && b[..2] == m
    ensures Split(a + b, m) == Split(a, m) + Split(b, m)[1..]
    decreases |a|
  {
    SplitLeadingMarker(b, m);
    var tail := Split(b[2..], m);
    var f := Find(a, m);
    if f < |a| {
      var rest := a[f + 2..];
      SplitPrefixStep(a, b, m);
      SplitStep(a, m);
      SplitAppendAtMarker(rest, b, m);
      AppendAssoc([a[..f]], Split(rest, m), tail);
    } else {
      SplitBeforeMarker(a, b, m);
    }
  }
}
