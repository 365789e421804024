/**
 * The Python `str` built-ins that the utilities call: `split` on one
 * separator character, `'sep'.join`, `strip()` and `replace`.  Characters are
 * restricted to what ASCII text does with them (see the README).
 */
module PyStrings {

  /** Index of the first occurrence of `c` in `s`. */
  function FirstIndex(s: string, c: char): (i: nat)
    requires c in s
    ensures i < |s| && s[i] == c && c !in s[..i]
  {
    if s[0] == c then 0
    else
      var j := FirstIndex(s[1..], c);
      assert s[..j + 1] == [s[0]] + s[1..][..j];
      j + 1
  }

  /** `s.split(sep)` for a one-character separator: the pieces between the separators, in order. */
  function Split(s: string, sep: char): (parts: seq<string>)
    ensures |parts| >= 1
    ensures forall i :: 0 <= i < |parts| ==> sep !in parts[i]
    decreases |s|
  {
    if s == [] then [""]
    else
      var rest := Split(s[1..], sep);
      if s[0] == sep then [""] + rest
      else [[s[0]] + rest[0]] + rest[1..]
  }

  /** `sep.join(parts)` for a one-character separator. */
  function Join(sep: char, parts: seq<string>): (s: string)
    ensures |parts| == 1 ==> s == parts[0]
    ensures |parts| >= 2 ==> s == parts[0] + [sep] + Join(sep, parts[1..])
  {
    if |parts| == 0 then ""
    else if |parts| == 1 then parts[0]
    else parts[0] + [sep] + Join(sep, parts[1..])
  }

  /** Joining the pieces of a split with the same separator gives back the string. */
  lemma {:induction false} JoinSplit(s: string, sep: char)
    ensures Join(sep, Split(s, sep)) == s
    decreases |s|
  {
    if s != [] {
      var rest := Split(s[1..], sep);
      JoinSplit(s[1..], sep);
      if s[0] == sep {
        assert Split(s, sep) == [""] + rest;
        assert ([""] + rest)[1..] == rest;
      } else {
        var parts := [[s[0]] + rest[0]] + rest[1..];
        assert Split(s, sep) == parts;
        if |rest| >= 2 {
          assert parts[1..] == rest[1..];
          assert Join(sep, rest) == rest[0] + [sep] + Join(sep, rest[1..]);
        }
      }
    }
  }

  /** A split yields more than one piece exactly when the separator occurs. */
  lemma {:induction false} SplitMany(s: string, sep: char)
    ensures |Split(s, sep)| > 1 <==> sep in s
    decreases |s|
  {
    if s != [] {
      SplitMany(s[1..], sep);
      assert s == [s[0]] + s[1..];
    }
  }

  /**
   * The first piece of a split is the text before the first separator, and
   * the remaining pieces joined back are the text after it.
   */
  lemma SplitAtFirst(s: string, sep: char)
    requires sep in s
    ensures Split(s, sep)[0] == s[..FirstIndex(s, sep)]
    ensures Join(sep, Split(s, sep)[1..]) == s[FirstIndex(s, sep) + 1..]
  {
    var parts := Split(s, sep);
    var i := FirstIndex(s, sep);
    SplitMany(s, sep);
    JoinSplit(s, sep);
    assert s == parts[0] + [sep] + Join(sep, parts[1..]);
    var h := |parts[0]|;
    assert s[h] == sep;
    assert s[..h] == parts[0];
    assert s[h + 1..] == Join(sep, parts[1..]);
  }

  /** Python's `str.isspace()` restricted to ASCII: tab, newline, vertical tab, form feed, carriage return, the four separator controls 0x1c-0x1f, and space. */
  predicate IsSpace(c: char) {
    var n := c as int;
    n == 32 || 9 <= n <= 13 || 28 <= n <= 31
  }

  /** `s.lstrip()`: drops the leading whitespace. */
  function StripLeft(s: string): (r: string)
    ensures |r| <= |s| && r == s[|s| - |r|..]
    ensures forall i :: 0 <= i < |s| - |r| ==> IsSpace(s[i])
    ensures r == [] || !IsSpace(r[0])
  {
    if s != [] && IsSpace(s[0]) then StripLeft(s[1..]) else s
  }

  /** `s.rstrip()`: drops the trailing whitespace. */
  function StripRight(s: string): (r: string)
    ensures |r| <= |s| && r == s[..|r|]
    ensures forall i :: |r| <= i < |s| ==> IsSpace(s[i])
    ensures r == [] || !IsSpace(r[|r| - 1])
  {
    if s != [] && IsSpace(s[|s| - 1]) then StripRight(s[..|s| - 1]) else s
  }

  /**
   * `s.strip()`: the result is the piece of `s` that remains after removing
   * whitespace at both ends, and it neither starts nor ends with whitespace.
   */
  function Strip(s: string): (r: string)
    ensures r == [] || (!IsSpace(r[0]) && !IsSpace(r[|r| - 1]))
    ensures |r| <= |StripLeft(s)| <= |s| && r == s[|s| - |StripLeft(s)|..][..|r|]
    ensures forall i :: 0 <= i < |s| - |StripLeft(s)| ==> IsSpace(s[i])
    ensures forall i :: |s| - |StripLeft(s)| + |r| <= i < |s| ==> IsSpace(s[i])
  {
    var l := StripLeft(s);
    var r := StripRight(l);
    assert r != [] ==> r[0] == l[0];
    var lo := |s| - |l|;
    forall i | lo + |r| <= i < |s| ensures IsSpace(s[i]) {
      assert s[i] == l[i - lo];
    }
    r
  }

  /** True when `pat` occurs in `s` starting at index `i`. */
  predicate OccursAt(s: string, pat: string, i: int) {
    0 <= i && i + |pat| <= |s| && s[i..i + |pat|] == pat
  }

  /** `s.replace(pat, rep)`: scans left to right and replaces non-overlapping occurrences. */
  function ReplaceAll(s: string, pat: string, rep: string): (r: string)
    requires |pat| > 0
    decreases |s|
  {
    if |s| < |pat| then s
    else if s[..|pat|] == pat then rep + ReplaceAll(s[|pat|..], pat, rep)
    else [s[0]] + ReplaceAll(s[1..], pat, rep)
  }

  /** Where `pat` never occurs, `replace` leaves the string unchanged. */
  lemma {:induction false} ReplaceAbsent(s: string, pat: string, rep: string)
    requires |pat| > 0
    requires forall i :: !OccursAt(s, pat, i)
    ensures ReplaceAll(s, pat, rep) == s
    decreases |s|
  {
    if |s| >= |pat| {
      assert !OccursAt(s, pat, 0);
      assert s[..|pat|] != pat;
      forall i ensures !OccursAt(s[1..], pat, i) {
        if OccursAt(s[1..], pat, i) {
          assert s[1..][i..i + |pat|] == s[i + 1..i + 1 + |pat|];
          assert OccursAt(s, pat, i + 1);
        }
      }
      ReplaceAbsent(s[1..], pat, rep);
      assert s == [s[0]] + s[1..];
    }
  }

  /** Replacing one character by another rewrites exactly the positions that held it. */
  lemma {:induction false} ReplaceCharAt(s: string, c: char, d: char)
    ensures |ReplaceAll(s, [c], [d])| == |s|
    ensures forall i :: 0 <= i < |s| ==>
              ReplaceAll(s, [c], [d])[i] == if s[i] == c then d else s[i]
    decreases |s|
  {
    if |s| >= 1 {
      ReplaceCharAt(s[1..], c, d);
      assert s[..1] == [s[0]];
    }
  }

  /**
   * A string that ends with `pat`, and otherwise never holds the first
   * character of `pat`, loses exactly that final occurrence.
   */
  lemma {:induction false} ReplaceSuffix(x: string, pat: string, rep: string)
    requires |pat| > 0 && pat[0] !in x
    ensures ReplaceAll(x + pat, pat, rep) == x + rep
    decreases |x|
  {
    if x == [] {
      assert x + pat == pat;
      assert ReplaceAll(pat[|pat|..], pat, rep) == [];
    } else {
      ReplaceSuffix(x[1..], pat, rep);
      ReplaceSkip(x[0], x[1..] + pat, pat, rep);
      assert x + pat == [x[0]] + (x[1..] + pat);
      assert x + rep == [x[0]] + (x[1..] + rep);
    }
  }

  /** A character that cannot start `pat` is copied over unchanged. */
  lemma ReplaceSkip(c: char, t: string, pat: string, rep: string)
    requires |pat| > 0 && c != pat[0]
    ensures ReplaceAll([c] + t, pat, rep) == [c] + ReplaceAll(t, pat, rep)
  {
    var s := [c] + t;
    assert s[1..] == t;
    if |s| >= |pat| {
      assert s[..|pat|][0] == c;
    }
  }
}
