/** The pool-file name grammar `([^_]+)_eph_g2_p(\d+)\.h5`: a non-empty
    prefix without `_`, the fixed text `_eph_g2_p`, one or more decimal
    digits (the 1-based pool number), and the extension `.h5`.

    The name is taken to match as a whole, and `\d` to mean the ASCII
    digits `0`..`9`. */
module PoolFileNames {
  import opened Wrappers
  import opened Strings

  /** What follows the first `_` before the digits. */
  const Marker: string := "eph_g2_p"
  const Extension: string := ".h5"

  /** The two groups of a matching name. */
  datatype PoolFileName = PoolFileName(prefix: string, digits: string)

  predicate IsDigit(c: char) {
    '0' <= c <= '9'
  }

  predicate AllDigits(s: string) {
    forall k | 0 <= k < |s| :: IsDigit(s[k])
  }

  /** The group contents the pattern accepts. */
  predicate ValidGroups(g: PoolFileName) {
    |g.prefix| >= 1 && '_' !in g.prefix && |g.digits| >= 1 && AllDigits(g.digits)
  }

  /** The file name spelled by two group contents. */
  function Spell(g: PoolFileName): string {
    g.prefix + ['_'] + Marker + g.digits + Extension
  }

  /** Recogniser for the pattern: the name up to its first `_` is the
      prefix, and what follows must be `eph_g2_p`, digits, `.h5`. */
  function MatchPoolFileName(s: string): (r: Option<PoolFileName>)
    ensures r.Some? ==> ValidGroups(r.value) && Spell(r.value) == s
  {
    var parts := Partition(s, '_');
    var rest := parts.after;
    if parts.sep == [] || |parts.before| == 0 then None
    else if |rest| < |Marker| + 1 + |Extension| then None
    else if rest[..|Marker|] != Marker || rest[|rest| - |Extension|..] != Extension then None
    else
      var digits := rest[|Marker|..|rest| - |Extension|];
      if !AllDigits(digits) then None
      else
        var g := PoolFileName(parts.before, digits);
        SpelledBack(parts.before, rest, digits);
        Some(g)
  }

  /** Every name the pattern describes is recognised, with its groups: the
      recogniser accepts exactly the spelled names with valid groups. */
  lemma MatchSpelled(g: PoolFileName)
    requires ValidGroups(g)
    ensures MatchPoolFileName(Spell(g)) == Some(g)
  {
    var s := Spell(g);
    var rest := Marker + g.digits + Extension;
    assert s == g.prefix + ['_'] + rest;
    PartitionFirst(g.prefix, rest, '_');
    ThreeParts(Marker, g.digits, Extension);
  }

  /** A name whose text after the first `_` starts with the marker and
      ends with the extension is spelled by its groups. */
  lemma SpelledBack(prefix: string, rest: string, digits: string)
    requires |rest| >= |Marker| + |Extension|
    requires rest[..|Marker|] == Marker && rest[|rest| - |Extension|..] == Extension
    requires digits == rest[|Marker|..|rest| - |Extension|]
    ensures Spell(PoolFileName(prefix, digits)) == prefix + ['_'] + rest
  {
    assert rest == Marker + digits + Extension;
  }

  /** The three pieces of a concatenation, sliced back out. */
  lemma ThreeParts(a: string, b: string, c: string)
    ensures (a + b + c)[..|a|] == a
    ensures (a + b + c)[|a|..|a + b + c| - |c|] == b
    ensures (a + b + c)[|a + b + c| - |c|..] == c
  {
  }
}
