/** The pieces of Python's `str` API that the argument parsers and the report
    writers rely on: `strip()`, `partition(sep)`, `split(sep)` and
    `sep.join(items)`, on strings seen as sequences of code points. */
module Strings {

  /** Python's `str.isspace()` for one code point: the ASCII controls
      TAB..CR, the four information separators, SPACE, NEL, NO-BREAK SPACE
      and the Unicode space separators. */
  predicate IsSpace(c: char) {
    || ('\t' <= c <= '\r')
    || ('\U{1c}' <= c <= '\U{1f}')
    || c == ' ' || c == '\U{85}' || c == '\U{a0}' || c == '\U{1680}'
    || ('\U{2000}' <= c <= '\U{200a}')
    || c == '\U{2028}' || c == '\U{2029}' || c == '\U{202f}' || c == '\U{205f}' || c == '\U{3000}'
  }

  predicate AllSpace(s: string) {
    forall k | 0 <= k < |s| :: IsSpace(s[k])
  }

  /** Neither end of `s` is whitespace: what `strip()` leaves behind. */
  predicate Trimmed(s: string) {
    |s| == 0 || (!IsSpace(s[0]) && !IsSpace(s[|s| - 1]))
  }

  /** `t` sits inside `s` with only whitespace before and after it. */
  predicate SpacePadded(s: string, t: string) {
    exists i | 0 <= i <= |s| - |t| :: s[i..i + |t|] == t && AllSpace(s[..i]) && AllSpace(s[i + |t|..])
  }

  lemma SpacePaddedAt(s: string, t: string, i: nat)
    requires i + |t| <= |s| && s[i..i + |t|] == t
    requires AllSpace(s[..i]) && AllSpace(s[i + |t|..])
    ensures SpacePadded(s, t)
  {
  }

  /** How many whitespace characters `s` starts with. */
  function LeadingSpaces(s: string): (n: nat)
    ensures n <= |s| && AllSpace(s[..n])
    ensures n < |s| ==> !IsSpace(s[n])
  {
    if |s| > 0 && IsSpace(s[0]) then
      var n := LeadingSpaces(s[1..]);
      assert s[..n + 1] == [s[0]] + s[1..][..n];
      n + 1
    else 0
  }

  /** How many whitespace characters `s` ends with. */
  function TrailingSpaces(s: string): (n: nat)
    ensures n <= |s| && forall j | |s| - n <= j < |s| :: IsSpace(s[j])
    ensures n < |s| ==> !IsSpace(s[|s| - n - 1])
  {
    SpacesBefore(s, |s|)
  }

  /** How many whitespace characters end the first `e` characters of `s`. */
  function SpacesBefore(s: string, e: nat): (n: nat)
    requires e <= |s|
    ensures n <= e && forall j | e - n <= j < e :: IsSpace(s[j])
    ensures n < e ==> !IsSpace(s[e - n - 1])
  {
    if e > 0 && IsSpace(s[e - 1]) then SpacesBefore(s, e - 1) + 1 else 0
  }

  /** `s.strip()`: the text between the leading and the trailing
      whitespace; nothing when `s` is all whitespace. */
  function Strip(s: string): (r: string)
    ensures Trimmed(r)
    ensures r == [] <==> AllSpace(s)
  {
    var a := LeadingSpaces(s);
    if a == |s| then
      assert s[..a] == s;
      []
    else
      var b := TrailingSpaces(s);
      assert !IsSpace(s[a]);
      s[a..|s| - b]
  }

  /** What `strip()` keeps sits in its input between whitespace only. */
  lemma StripIsPadded(s: string)
    ensures SpacePadded(s, Strip(s))
  {
    var a := LeadingSpaces(s);
    if a == |s| {
      assert s[a..] == [];
      SpacePaddedAt(s, [], a);
    } else {
      var b := TrailingSpaces(s);
      var r := Strip(s);
      assert r == s[a..|s| - b];
      assert s[a + |r|..] == s[|s| - b..];
      var tail := s[|s| - b..];
      assert AllSpace(tail) by {
        forall k | 0 <= k < |tail| ensures IsSpace(tail[k]) {
          assert tail[k] == s[|s| - b + k];
        }
      }
      SpacePaddedAt(s, r, a);
    }
  }

  lemma {:induction false} LeadingOfPadded(a: string, t: string)
    requires AllSpace(a) && (|t| == 0 || !IsSpace(t[0]))
    ensures LeadingSpaces(a + t) == |a|
    decreases |a|
  {
    if |a| == 0 {
      assert a + t == t;
    } else {
      assert (a + t)[1..] == a[1..] + t;
      LeadingOfPadded(a[1..], t);
    }
  }

  lemma TrailingOfPadded(t: string, b: string)
    requires AllSpace(b) && (|t| == 0 || !IsSpace(t[|t| - 1]))
    ensures TrailingSpaces(t + b) == |b|
  {
    SpacesBeforePadded(t, b, |b|);
  }

  lemma {:induction false} SpacesBeforePadded(t: string, b: string, m: nat)
    requires AllSpace(b) && (|t| == 0 || !IsSpace(t[|t| - 1])) && m <= |b|
    ensures SpacesBefore(t + b, |t| + m) == m
    decreases m
  {
    if m > 0 {
      SpacesBeforePadded(t, b, m - 1);
      assert (t + b)[|t| + m - 1] == b[m - 1];
    } else if |t| > 0 {
      assert (t + b)[|t| - 1] == t[|t| - 1];
    }
  }

  /** `strip()` removes exactly the whitespace around a trimmed core: any
      whitespace padding of `t` strips back to `t`. */
  lemma StripPadded(a: string, t: string, b: string)
    requires AllSpace(a) && AllSpace(b) && Trimmed(t)
    ensures Strip(a + t + b) == t
  {
    var s := a + t + b;
    if |t| == 0 {
      assert s == (a + b) + "";
      assert AllSpace(a + b);
      LeadingOfPadded(a + b, "");
    } else {
      assert s == a + (t + b);
      LeadingOfPadded(a, t + b);
      TrailingOfPadded(a + t, b);
      assert s[|a|..|s| - |b|] == t;
    }
  }

  /** The pieces on either side of a separator, sliced back out. */
  lemma AroundSeparator(a: string, c: char, b: string)
    ensures (a + [c] + b)[..|a|] == a && (a + [c] + b)[|a|] == c && (a + [c] + b)[|a| + 1..] == b
  {
  }

  /** Python's `s.partition(sep)` for a one-character separator. */
  datatype Parts = Parts(before: string, sep: string, after: string)

  function Partition(s: string, c: char): (r: Parts)
    ensures r.sep == [] <==> c !in s
    ensures r.sep == [] ==> r.before == s && r.after == []
    ensures r.sep != [] ==> r.sep == [c] && s == r.before + [c] + r.after && c !in r.before
  {
    var i := FirstIndex(s, c);
    if i == |s| then Parts(s, [], [])
    else
      assert s == s[..i] + [c] + s[i + 1..];
      Parts(s[..i], [c], s[i + 1..])
  }

  /** The position of the first `c` in `s`, or `|s|` when there is none. */
  function FirstIndex(s: string, c: char): (i: nat)
    ensures i <= |s|
    ensures i < |s| ==> s[i] == c
    ensures forall j | 0 <= j < i :: s[j] != c
  {
    if |s| == 0 then 0
    else if s[0] == c then 0
    else 1 + FirstIndex(s[1..], c)
  }

  /** Partition splits at the first occurrence of the separator. */
  lemma PartitionFirst(a: string, b: string, c: char)
    requires c !in a
    ensures Partition(a + [c] + b, c) == Parts(a, [c], b)
  {
    var s := a + [c] + b;
    var i := FirstIndex(s, c);
    assert s[|a|] == c;
    assert i == |a|;
    assert s[..i] == a && s[i + 1..] == b;
  }

  /** `sep.join(items)`; the empty list joins to the empty string. */
  function Join(items: seq<string>, c: char): string {
    if |items| == 0 then []
    else if |items| == 1 then items[0]
    else items[0] + [c] + Join(items[1..], c)
  }

  /** Python's `s.split(sep)` for a one-character separator: always at
      least one piece, and the pieces joined back with `sep` give `s`. */
  function Split(s: string, c: char): (r: seq<string>)
    ensures |r| >= 1
    ensures forall k | 0 <= k < |r| :: c !in r[k]
    ensures Join(r, c) == s
  {
    if |s| == 0 then [[]]
    else
      var rest := Split(s[1..], c);
      if s[0] == c then
        assert [c] + Join(rest, c) == s;
        [[]] + rest
      else
        var r := [[s[0]] + rest[0]] + rest[1..];
        assert r[1..] == rest[1..];
        assert Join(r, c) == s by {
          if |rest| > 1 {
            assert Join(rest, c) == rest[0] + [c] + Join(rest[1..], c);
          }
          assert s == [s[0]] + s[1..];
        }
        r
  }

  lemma {:induction false} SplitNoSeparator(a: string, c: char)
    requires c !in a
    ensures Split(a, c) == [a]
    decreases |a|
  {
    if |a| > 0 {
      assert c !in a[1..];
      SplitNoSeparator(a[1..], c);
    }
  }

  lemma {:induction false} SplitAfterPiece(a: string, rest: string, c: char)
    requires c !in a
    ensures Split(a + [c] + rest, c) == [a] + Split(rest, c)
    decreases |a|
  {
    if |a| == 0 {
      assert (a + [c] + rest)[1..] == rest;
    } else {
      assert (a + [c] + rest)[1..] == a[1..] + [c] + rest;
      assert c !in a[1..] && a[0] != c;
      SplitAfterPiece(a[1..], rest, c);
      assert [a[0]] + a[1..] == a;
    }
  }

  /** `split` undoes `join` when no item holds the separator. */
  lemma {:induction false} SplitJoin(items: seq<string>, c: char)
    requires |items| >= 1
    requires forall k | 0 <= k < |items| :: c !in items[k]
    ensures Split(Join(items, c), c) == items
    decreases |items|
  {
    if |items| == 1 {
      SplitNoSeparator(items[0], c);
    } else {
      SplitJoin(items[1..], c);
      SplitAfterPiece(items[0], Join(items[1..], c), c);
      assert [items[0]] + items[1..] == items;
    }
  }
}
