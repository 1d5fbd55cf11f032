/*
 * The few Python `str` operations the mail sender relies on, written out on
 * `seq<char>`: `isspace`, `strip`, `lower`, the substring test `sub in s`,
 * `replace` with one-character arguments and `split` on one character.
 */
module Text {

  /** The characters CPython's `str.isspace()` accepts, i.e. those `str.strip()` removes. */
  predicate IsSpace(c: char)
  {
    ('\U{9}' <= c <= '\U{D}') || ('\U{1C}' <= c <= '\U{20}') ||
    c == '\U{85}' || c == '\U{A0}' || c == '\U{1680}' ||
    ('\U{2000}' <= c <= '\U{200A}') || c == '\U{2028}' || c == '\U{2029}' ||
    c == '\U{202F}' || c == '\U{205F}' || c == '\U{3000}'
  }

  /** Every character of `s` is whitespace (`s.strip()` is empty). */
  predicate IsBlank(s: string)
  {
    forall k :: 0 <= k < |s| ==> IsSpace(s[k])
  }

  /** Neither end of `s` is whitespace. */
  predicate IsStripped(s: string)
  {
    s == [] || (!IsSpace(s[0]) && !IsSpace(s[|s| - 1]))
  }

  /** The characters of `s` at positions `lo` up to (not including) `hi` are all whitespace. */
  predicate SpaceBetween(s: string, lo: int, hi: int)
    requires 0 <= lo <= hi <= |s|
  {
    forall k :: lo <= k < hi ==> IsSpace(s[k])
  }

  /** Python's `s.strip()` with no argument: whitespace is cut from both ends. */
  function Strip(s: string): (r: string)
    ensures |r| <= |s|
    ensures IsStripped(r)
    ensures r == [] <==> IsBlank(s)
    decreases |s|
  {
    if s != [] && IsSpace(s[0]) then
      assert forall k :: 1 <= k < |s| ==> s[k] == s[1..][k - 1];
      Strip(s[1..])
    else if s != [] && IsSpace(s[|s| - 1]) then
      assert forall k :: 0 <= k < |s| - 1 ==> s[k] == s[..|s| - 1][k];
      Strip(s[..|s| - 1])
    else
      s
  }

  /** Stripping cuts a whitespace-only prefix and a whitespace-only suffix and keeps the rest as it is. */
  lemma {:induction false} StripBounds(s: string) returns (i: nat)
    ensures i + |Strip(s)| <= |s|
    ensures Strip(s) == s[i..i + |Strip(s)|]
    ensures SpaceBetween(s, 0, i) && SpaceBetween(s, i + |Strip(s)|, |s|)
    decreases |s|
  {
    var n := |Strip(s)|;
    if s != [] && IsSpace(s[0]) {
      var i' := StripBounds(s[1..]);
      SpaceBetweenFront(s, i', n);
      i := i' + 1;
    } else if s != [] && IsSpace(s[|s| - 1]) {
      var t := s[..|s| - 1];
      i := StripBounds(t);
      assert i == 0 by {
        if |t| > 0 { assert t[0] == s[0]; }
      }
      SpaceBetweenBack(s, n);
    } else {
      i := 0;
    }
  }

  /** Putting a whitespace character in front of `s[1..]` shifts the bounds of `StripBounds` by one. */
  lemma SpaceBetweenFront(s: string, i: nat, n: nat)
    requires s != [] && IsSpace(s[0]) && i + n <= |s| - 1
    requires SpaceBetween(s[1..], 0, i) && SpaceBetween(s[1..], i + n, |s| - 1)
    ensures s[1..][i..i + n] == s[i + 1..i + 1 + n]
    ensures SpaceBetween(s, 0, i + 1) && SpaceBetween(s, i + 1 + n, |s|)
  {
    var t := s[1..];
    forall k | 0 <= k < i + 1 ensures IsSpace(s[k]) {
      if k > 0 { assert s[k] == t[k - 1]; }
    }
    forall k | i + 1 + n <= k < |s| ensures IsSpace(s[k]) {
      assert s[k] == t[k - 1];
    }
  }

  /** Putting a whitespace character after `s[..|s| - 1]` leaves a prefix bound of zero in place. */
  lemma SpaceBetweenBack(s: string, n: nat)
    requires s != [] && IsSpace(s[|s| - 1]) && n <= |s| - 1
    requires SpaceBetween(s[..|s| - 1], n, |s| - 1)
    ensures s[..|s| - 1][0..n] == s[0..n]
    ensures SpaceBetween(s, n, |s|)
  {
    var t := s[..|s| - 1];
    forall k | n <= k < |s| ensures IsSpace(s[k]) {
      if k < |s| - 1 { assert s[k] == t[k]; }
    }
  }

  /** Stripping removes whitespace only: every other character stays present. */
  lemma StripKeeps(s: string, c: char)
    requires !IsSpace(c)
    ensures c in Strip(s) <==> c in s
  {
    var i := StripBounds(s);
    if c in s {
      var p :| 0 <= p < |s| && s[p] == c;
      assert Strip(s)[p - i] == c;
    }
  }

  /** A string whose ends are not whitespace is left as it is. */
  lemma StrippedFixed(s: string)
    requires IsStripped(s)
    ensures Strip(s) == s
  {
  }

  predicate IsUpper(c: char)
  {
    'A' <= c <= 'Z'
  }

  predicate IsLetter(c: char)
  {
    IsUpper(c) || 'a' <= c <= 'z'
  }

  /** Python's lower-casing restricted to ASCII letters. */
  function Lower(c: char): (d: char)
    ensures !IsUpper(d)
    ensures IsLetter(d) <==> IsLetter(c)
    ensures IsSpace(d) <==> IsSpace(c)
    ensures !IsUpper(c) ==> d == c
  {
    if IsUpper(c) then (c as int + ('a' as int - 'A' as int)) as char else c
  }

  /** Python's `s.lower()` restricted to ASCII letters. */
  function ToLower(s: string): (r: string)
    ensures |r| == |s|
    ensures forall k :: 0 <= k < |s| ==> r[k] == Lower(s[k])
  {
    if s == [] then [] else [Lower(s[0])] + ToLower(s[1..])
  }

  /** A string with no upper-case letter is its own lower-case form. */
  lemma ToLowerFixed(s: string)
    requires forall k :: 0 <= k < |s| ==> !IsUpper(s[k])
    ensures ToLower(s) == s
  {
  }

  /** Lower-casing keeps every character that is not a letter, and no other. */
  lemma ToLowerKeeps(s: string, c: char)
    requires !IsLetter(c)
    ensures c in ToLower(s) <==> c in s
  {
    if c in s {
      var p :| 0 <= p < |s| && s[p] == c;
      assert ToLower(s)[p] == c;
    }
    if c in ToLower(s) {
      var p :| 0 <= p < |s| && ToLower(s)[p] == c;
      assert s[p] == c;
    }
  }

  /** Lower-casing works character by character, so it commutes with slicing. */
  lemma {:induction false} ToLowerSlice(s: string, i: nat, j: nat)
    requires i <= j <= |s|
    ensures ToLower(s[i..j]) == ToLower(s)[i..j]
  {
    var lhs, rhs := ToLower(s[i..j]), ToLower(s)[i..j];
    assert |lhs| == |rhs| == j - i;
    forall k | 0 <= k < j - i
      ensures lhs[k] == rhs[k]
    {
      assert lhs[k] == Lower(s[i..j][k]) == Lower(s[i + k]);
    }
  }

  /** The lower-cased strip of `s` is a slice of the lower-cased `s` with only whitespace around it. */
  lemma LowerStripBounds(s: string) returns (i: nat, j: nat)
    ensures i <= j <= |s|
    ensures ToLower(Strip(s)) == ToLower(s)[i..j]
    ensures SpaceBetween(ToLower(s), 0, i) && SpaceBetween(ToLower(s), j, |s|)
  {
    i := StripBounds(s);
    j := i + |Strip(s)|;
    ToLowerSlice(s, i, j);
    ToLowerKeepsSpace(s, 0, i);
    ToLowerKeepsSpace(s, j, |s|);
  }

  /** Lower-casing leaves whitespace in place. */
  lemma ToLowerKeepsSpace(s: string, lo: nat, hi: nat)
    requires lo <= hi <= |s| && SpaceBetween(s, lo, hi)
    ensures SpaceBetween(ToLower(s), lo, hi)
  {
    forall k | lo <= k < hi ensures IsSpace(ToLower(s)[k]) {
      assert ToLower(s)[k] == Lower(s[k]);
    }
  }

  predicate OccursAt(s: string, sub: string, k: int)
  {
    0 <= k && k + |sub| <= |s| && s[k..k + |sub|] == sub
  }

  /** Python's substring test `sub in s`. */
  predicate Contains(s: string, sub: string)
  {
    exists k :: 0 <= k <= |s| - |sub| && OccursAt(s, sub, k)
  }

  /**
   * Cutting whitespace off both ends of a string does not change whether a
   * non-empty substring whose ends are not whitespace occurs in it.
   */
  lemma ContainsTrimmed(s: string, i: nat, j: nat, sub: string)
    requires i <= j <= |s|
    requires SpaceBetween(s, 0, i) && SpaceBetween(s, j, |s|)
    requires sub != [] && !IsSpace(sub[0]) && !IsSpace(sub[|sub| - 1])
    ensures Contains(s[i..j], sub) <==> Contains(s, sub)
  {
    if Contains(s[i..j], sub) {
      var k :| 0 <= k <= j - i - |sub| && OccursAt(s[i..j], sub, k);
      OccursInSlice(s, i, j, sub, k);
    }
    if Contains(s, sub) {
      var k :| 0 <= k <= |s| - |sub| && OccursAt(s, sub, k);
      OccursInside(s, i, j, sub, k);
    }
  }

  /** An occurrence inside a slice is an occurrence in the whole string. */
  lemma OccursInSlice(s: string, i: nat, j: nat, sub: string, k: nat)
    requires i <= j <= |s|
    requires OccursAt(s[i..j], sub, k)
    ensures OccursAt(s, sub, i + k)
  {
    SliceOfSlice(s, i, j, k, k + |sub|);
  }

  /** An occurrence whose ends are not whitespace lies inside the whitespace-trimmed slice. */
  lemma OccursInside(s: string, i: nat, j: nat, sub: string, k: nat)
    requires i <= j <= |s|
    requires SpaceBetween(s, 0, i) && SpaceBetween(s, j, |s|)
    requires sub != [] && !IsSpace(sub[0]) && !IsSpace(sub[|sub| - 1])
    requires OccursAt(s, sub, k)
    ensures i <= k && k + |sub| <= j && OccursAt(s[i..j], sub, k - i)
  {
    var e := k + |sub| - 1;
    assert s[k] == sub[0] by { assert s[k..k + |sub|][0] == s[k]; }
    assert s[e] == sub[|sub| - 1] by { assert s[k..k + |sub|][|sub| - 1] == s[e]; }
    assert !(k < i);
    assert !(e >= j);
    SliceOfSlice(s, i, j, k - i, k - i + |sub|);
  }

  lemma SliceOfSlice(s: string, i: nat, j: nat, a: nat, b: nat)
    requires i <= j <= |s| && a <= b <= j - i
    ensures s[i..j][a..b] == s[i + a..i + b]
  {
    assert |s[i..j][a..b]| == b - a;
    forall p | 0 <= p < b - a
      ensures s[i..j][a..b][p] == s[i + a..i + b][p]
    {
    }
  }

  /** Python's `s.replace(target, replacement)` for one-character arguments. */
  function Replace(s: string, target: char, replacement: char): (r: string)
    ensures |r| == |s|
    ensures forall k :: 0 <= k < |s| ==> r[k] == if s[k] == target then replacement else s[k]
  {
    if s == [] then []
    else [if s[0] == target then replacement else s[0]] + Replace(s[1..], target, replacement)
  }

  /** Position of the first occurrence of `c` in `s`. */
  function IndexOf(s: string, c: char): (i: nat)
    requires c in s
    ensures i < |s| && s[i] == c && c !in s[..i]
  {
    if s[0] == c then 0
    else
      var j := IndexOf(s[1..], c);
      assert s[..j + 1] == [s[0]] + s[1..][..j];
      j + 1
  }

  /** Python's `s.split(sep)` for a one-character separator. */
  function Split(s: string, sep: char): (parts: seq<string>)
    ensures |parts| >= 1
    ensures sep in s <==> |parts| >= 2
    ensures forall k :: 0 <= k < |parts| ==> sep !in parts[k]
    decreases |s|
  {
    if sep in s then
      var i := IndexOf(s, sep);
      [s[..i]] + Split(s[i + 1..], sep)
    else
      [s]
  }

  /** The first two pieces of a split: the text before the first separator, then the text up to the next one. */
  lemma SplitFirstTwo(s: string, sep: char)
    requires sep in s
    ensures var i := IndexOf(s, sep);
      var rest := s[i + 1..];
      Split(s, sep)[0] == s[..i] &&
      Split(s, sep)[1] == if sep in rest then rest[..IndexOf(rest, sep)] else rest
  {
    var i := IndexOf(s, sep);
    var rest := s[i + 1..];
    assert Split(s, sep) == [s[..i]] + Split(rest, sep);
    if sep in rest {
      assert Split(rest, sep)[0] == rest[..IndexOf(rest, sep)];
    }
  }

  /** Python's `sep.join(parts)`, the reference inverse of `Split`. */
  function Join(parts: seq<string>, sep: char): string
    requires |parts| >= 1
  {
    if |parts| == 1 then parts[0] else parts[0] + [sep] + Join(parts[1..], sep)
  }

  /** Joining the pieces of a split with the separator gives back the string. */
  lemma {:induction false} JoinSplit(s: string, sep: char)
    ensures Join(Split(s, sep), sep) == s
    decreases |s|
  {
    if sep in s {
      var i := IndexOf(s, sep);
      var rest := Split(s[i + 1..], sep);
      assert Split(s, sep) == [s[..i]] + rest;
      assert ([s[..i]] + rest)[1..] == rest;
      JoinSplit(s[i + 1..], sep);
      assert s == s[..i] + [sep] + s[i + 1..];
    }
  }

  /** Splitting a join of separator-free pieces gives back the pieces. */
  lemma {:induction false} SplitJoin(parts: seq<string>, sep: char)
    requires |parts| >= 1
    requires forall k :: 0 <= k < |parts| ==> sep !in parts[k]
    ensures Split(Join(parts, sep), sep) == parts
  {
    if |parts| > 1 {
      SplitAtFirst(parts[0], sep, Join(parts[1..], sep));
      SplitJoin(parts[1..], sep);
      assert parts == [parts[0]] + parts[1..];
    }
  }

  /** The first separator of `head + [sep] + tail` is the one right after a separator-free `head`. */
  lemma SplitAtFirst(head: string, sep: char, tail: string)
    requires sep !in head
    ensures Split(head + [sep] + tail, sep) == [head] + Split(tail, sep)
  {
    var s := head + [sep] + tail;
    assert s[|head|] == sep;
    assert s[..|head|] == head;
    assert IndexOf(s, sep) == |head|;
    assert s[|head| + 1..] == tail;
  }
}
