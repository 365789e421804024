/**
 * Sanitisation of arbitrary strings into cloud resource labels: only
 * `[a-z0-9_-]`, keys start with a letter, at most 63 characters.
 */
module Labels {
  import opened Wrappers

  /** Label keys and values are at most this many characters long. */
  const MaxLabelLength: nat := 63

  predicate IsLower(c: char) { 'a' <= c <= 'z' }

  /** Python's `str.isalpha()` on one ASCII character. */
  predicate IsAsciiAlpha(c: char) { 'a' <= c <= 'z' || 'A' <= c <= 'Z' }

  /** The characters a label may hold: `[a-z0-9_-]`. */
  predicate IsLabelChar(c: char) { IsLower(c) || '0' <= c <= '9' || c == '_' || c == '-' }

  /** A well-formed label: allowed characters only, and not too long. */
  predicate IsLabel(s: string) {
    |s| <= MaxLabelLength && forall i :: 0 <= i < |s| ==> IsLabelChar(s[i])
  }

  /** `_is_key`: a present token that starts with a dash, as `-x` and `--x` do. */
  predicate IsKey(k: Option<string>) {
    k.Some? && |k.value| > 0 && k.value[0] == '-'
  }

  /**
   * A key is exactly a present token with the prefix "-", and the dash it is
   * recognised by never reaches its label.
   */
  lemma IsKeyLabel(k: Option<string>)
    ensures IsKey(k) <==> k.Some? && "-" <= k.value
    ensures IsKey(k) ==> KeyLabel(k) == KeyLabel(Some(k.value[1..]))
  {
    if IsKey(k) {
      assert k.value == ['-'] + k.value[1..];
      CleanLabelIgnoresDash(k.value[1..], true);
    }
  }

  /** `_truncate`: the longest prefix of `s` of at most `maxLength` characters. */
  function Truncate(s: string, maxLength: nat): (r: string)
    ensures |r| == if |s| <= maxLength then |s| else maxLength
    ensures r == s[..|r|]
  {
    if |s| <= maxLength then s else s[0..maxLength]
  }

  /** `s.lstrip("-")`. */
  function LStripDashes(s: string): (r: string)
    ensures |r| <= |s| && r == s[|s| - |r|..]
    ensures forall i :: 0 <= i < |s| - |r| ==> s[i] == '-'
    ensures r == [] || r[0] != '-'
  {
    if s != [] && s[0] == '-' then LStripDashes(s[1..]) else s
  }

  function LowerChar(c: char): char {
    if 'A' <= c <= 'Z' then (c as int + 32) as char else c
  }

  /** `s.lower()` on ASCII text. */
  function Lower(s: string): string {
    seq(|s|, i requires 0 <= i < |s| => LowerChar(s[i]))
  }

  /**
   * Lower-casing keeps the length, turns every letter to lower case, leaves
   * every other character as it is, and leaves no upper-case letter.
   */
  lemma LowerCases(s: string)
    ensures |Lower(s)| == |s|
    ensures forall i :: 0 <= i < |s| ==>
              (IsAsciiAlpha(s[i]) ==> IsLower(Lower(s)[i])) && (!IsAsciiAlpha(s[i]) ==> Lower(s)[i] == s[i])
    ensures forall i :: 0 <= i < |s| && IsLower(s[i]) ==> Lower(s)[i] == s[i]
    ensures forall i :: 0 <= i < |Lower(s)| ==> !('A' <= Lower(s)[i] <= 'Z')
  {
  }

  /**
   * `re.sub(r'[^a-z0-9_-]', '', s)`: keeps the label characters, in order,
   * and drops every other character.
   */
  function KeepLabelChars(s: string): (r: string)
    ensures |r| <= |s|
    ensures forall i :: 0 <= i < |r| ==> IsLabelChar(r[i])
  {
    if s == [] then []
    else if IsLabelChar(s[0]) then [s[0]] + KeepLabelChars(s[1..])
    else KeepLabelChars(s[1..])
  }

  /**
   * Nothing else is lost: every label character of `s` is kept, as often as
   * it occurs, and the kept characters stay in their order in `s`.
   */
  lemma {:induction false} KeepLabelCharsKeeps(s: string)
    ensures forall c :: IsLabelChar(c) ==> multiset(KeepLabelChars(s))[c] == multiset(s)[c]
    ensures IsSubsequence(KeepLabelChars(s), s)
    decreases |s|
  {
    if s != [] {
      KeepLabelCharsKeeps(s[1..]);
      var rest := KeepLabelChars(s[1..]);
      assert s == [s[0]] + s[1..];
      if IsLabelChar(s[0]) {
        assert ([s[0]] + rest)[1..] == rest;
      }
    }
  }

  /** `r` is `s` with some of its characters removed, the others kept in order. */
  predicate IsSubsequence(r: string, s: string)
    decreases |s|
  {
    r == [] || (s != [] && (IsSubsequence(r, s[1..]) || (r[0] == s[0] && IsSubsequence(r[1..], s[1..]))))
  }

  /** A text made of label characters only is kept whole. */
  lemma {:induction false} KeepAllLabelChars(s: string)
    requires forall i :: 0 <= i < |s| ==> IsLabelChar(s[i])
    ensures KeepLabelChars(s) == s
    decreases |s|
  {
    if s != [] {
      KeepAllLabelChars(s[1..]);
      assert s == [s[0]] + s[1..];
    }
  }

  /**
   * The cleaning stage of `_clean_label`, before the key prefix and the
   * truncation.
   */
  function Normalized(s: string): string {
    KeepLabelChars(Lower(LStripDashes(s)))
  }

  /**
   * Only label characters are left, and they are all those of the
   * lower-cased text after its leading dashes, in order.
   */
  lemma NormalizedKeeps(s: string)
    ensures |Normalized(s)| <= |s|
    ensures forall i :: 0 <= i < |Normalized(s)| ==> IsLabelChar(Normalized(s)[i])
    ensures forall c :: IsLabelChar(c) ==> multiset(Normalized(s))[c] == multiset(Lower(LStripDashes(s)))[c]
    ensures IsSubsequence(Normalized(s), Lower(LStripDashes(s)))
  {
    KeepLabelCharsKeeps(Lower(LStripDashes(s)));
  }

  /** True when a key label needs the synthetic `k` in front. */
  predicate NeedsPrefix(cleaned: string) {
    cleaned != "" && !IsAsciiAlpha(cleaned[0])
  }

  /**
   * `_clean_label`.  The result is always a well-formed label; it is empty
   * exactly for `None` or when nothing survives the cleaning; a key result
   * starts with a letter.  `CleanLabelText` says which text it is.
   */
  function CleanLabel(s: Option<string>, isKey: bool): (r: string)
    ensures IsLabel(r)
    ensures r == "" <==> s.None? || Normalized(s.value) == ""
    ensures isKey && r != "" ==> IsLower(r[0])
  {
    if s.None? then ""
    else
      var cleaned := Normalized(s.value);
      var cleaned := if isKey && cleaned != "" && !IsAsciiAlpha(cleaned[0]) then "k" + cleaned else cleaned;
      Truncate(cleaned, MaxLabelLength)
  }

  /**
   * The text `_clean_label` keeps: the cleaned text cut to 63 characters,
   * and for a key that does not start with a letter, a `k` followed by the
   * cleaned text cut to 62.
   */
  lemma CleanLabelText(s: string, isKey: bool)
    ensures var n := Normalized(s); var r := CleanLabel(Some(s), isKey);
      !(isKey && NeedsPrefix(n)) ==>
        |r| == (if |n| <= MaxLabelLength then |n| else MaxLabelLength) && r == n[..|r|]
    ensures var n := Normalized(s); var r := CleanLabel(Some(s), isKey);
      isKey && NeedsPrefix(n) ==>
        |r| == (if |n| < MaxLabelLength then |n| + 1 else MaxLabelLength) && r[0] == 'k' && r[1..] == n[..|r| - 1]
  {
  }

  /** `key_label`: a well-formed label key, empty or starting with a letter. */
  function KeyLabel(k: Option<string>): (r: string)
    ensures IsLabel(r) && (r != "" ==> IsLower(r[0]))
    ensures r == "" <==> k.None? || Normalized(k.value) == ""
  {
    CleanLabel(k, true)
  }

  /** `value_label`: a well-formed label value, empty for `None`. */
  function ValueLabel(v: Option<string>): (r: string)
    ensures IsLabel(r)
    ensures v.None? ==> r == ""
  {
    CleanLabel(v, false)
  }

  /** A value label is the cleaned text cut to 63 characters (never a forced `k`). */
  lemma ValueLabelText(v: string)
    ensures |ValueLabel(Some(v))| == if |Normalized(v)| <= MaxLabelLength then |Normalized(v)| else MaxLabelLength
    ensures ValueLabel(Some(v)) == Normalized(v)[..|ValueLabel(Some(v))|]
  {
    CleanLabelText(v, false);
  }

  /** A label that does not start with a dash survives the cleaning stage unchanged. */
  lemma NormalizedLabel(x: string)
    requires forall i :: 0 <= i < |x| ==> IsLabelChar(x[i])
    requires x == [] || x[0] != '-'
    ensures Normalized(x) == x
  {
    assert LStripDashes(x) == x;
    assert Lower(x) == x;
    KeepAllLabelChars(x);
  }

  /** Applying `key_label` to its own output changes nothing. */
  lemma KeyLabelIdempotent(k: Option<string>)
    ensures KeyLabel(Some(KeyLabel(k))) == KeyLabel(k)
  {
    var r := KeyLabel(k);
    NormalizedLabel(r);
  }

  /** `value_label` is idempotent on its outputs that do not start with a dash. */
  lemma ValueLabelIdempotent(v: Option<string>)
    requires ValueLabel(v) == "" || ValueLabel(v)[0] != '-'
    ensures ValueLabel(Some(ValueLabel(v))) == ValueLabel(v)
  {
    NormalizedLabel(ValueLabel(v));
  }

  /** The empty value cleans to the empty label. */
  lemma ValueLabelEmpty()
    ensures ValueLabel(Some("")) == ""
  {
    NormalizedLabel("");
  }

  /** A short cleaned text comes out whole, with the `k` in front where a key needs one. */
  lemma CleanLabelShort(x: string, isKey: bool, n: string)
    requires Normalized(x) == n && |n| < MaxLabelLength
    ensures CleanLabel(Some(x), isKey) == if isKey && NeedsPrefix(n) then "k" + n else n
  {
  }

  /**
   * A value whose cleaned form starts with a dash is not a fixed point:
   * the dashes go only in the second pass, because they were not leading
   * before the other characters were removed.
   */
  lemma ValueLabelDashNotFixed()
    ensures ValueLabel(Some("!-a")) == "-a"
    ensures ValueLabel(Some("-a")) == "a"
  {
    NormalizedBang();
    CleanLabelShort("!-a", false, "-a");
    NormalizedDash();
    CleanLabelShort("-a", false, "a");
  }

  lemma NormalizedBang()
    ensures Normalized("!-a") == "-a"
  {
    assert LStripDashes("!-a") == "!-a";
    assert Lower("!-a") == "!-a";
    KeepCons('!', "-a");
    KeepAllLabelChars("-a");
  }

  lemma NormalizedDash()
    ensures Normalized("-a") == "a"
  {
    NormalizedLabel("a");
    LStripDash("a");
  }

  /** `lstrip("-")` drops a leading dash. */
  lemma LStripDash(s: string)
    ensures LStripDashes(['-'] + s) == LStripDashes(s)
  {
    assert (['-'] + s)[1..] == s;
  }

  /** Leading dashes do not matter: a flag cleans to the same label as its bare name. */
  lemma CleanLabelIgnoresDash(s: string, isKey: bool)
    ensures CleanLabel(Some(['-'] + s), isKey) == CleanLabel(Some(s), isKey)
  {
    LStripDash(s);
  }

  /** `KeepLabelChars` one character at a time. */
  lemma KeepCons(c: char, s: string)
    ensures KeepLabelChars([c] + s) == if IsLabelChar(c) then [c] + KeepLabelChars(s) else KeepLabelChars(s)
  {
    assert ([c] + s)[1..] == s;
  }

  /** A key that starts with a digit gets the `k` in front. */
  lemma KeyLabelPrefixesDigit()
    ensures KeyLabel(Some("123abc")) == "k" + "123abc"
  {
    NormalizedLabel("123abc");
    CleanLabelShort("123abc", true, "123abc");
  }

  /** A lower-case word short enough to be a label as it stands. */
  predicate IsWord(s: string) {
    0 < |s| < MaxLabelLength && forall i :: 0 <= i < |s| ==> IsLower(s[i])
  }

  /** A flag `--name` whose name is a lower-case word gives that word as its key. */
  lemma KeyLabelFlag(name: string)
    requires IsWord(name)
    ensures KeyLabel(Some("--" + name)) == name
  {
    NormalizedFlag(name);
    CleanLabelShort("--" + name, true, name);
  }

  /** The cleaning stage turns `--name` into `name` for a lower-case word. */
  lemma NormalizedFlag(name: string)
    requires IsWord(name)
    ensures Normalized("--" + name) == name
  {
    assert "--" + name == ['-'] + (['-'] + name);
    LStripDash(['-'] + name);
    LStripDash(name);
    NormalizedLabel(name);
  }

  /** The label key a pair contributes (empty when it is dropped). */
  function KeyOf(p: (string, string)): string {
    KeyLabel(Some(p.0))
  }

  /** True when no later pair cleans to the same key as pair `i`. */
  predicate LastWithKey(pairs: seq<(string, string)>, i: nat)
    requires i < |pairs|
  {
    forall j :: i < j < |pairs| ==> KeyOf(pairs[j]) != KeyOf(pairs[i])
  }

  /**
   * A dict comprehension over key/value pairs with an `if key` filter: pairs
   * are stored in order, so a later pair overwrites an earlier one with the
   * same key, and pairs with an empty key are skipped.
   */
  function Collect(kvs: seq<(string, string)>): map<string, string>
  {
    if kvs == [] then map[]
    else
      var m := Collect(kvs[..|kvs| - 1]);
      var p := kvs[|kvs| - 1];
      if p.0 != "" then m[p.0 := p.1] else m
  }

  /** `Collect` holds every non-empty key given and nothing else; each key holds the value of one of its pairs. */
  lemma {:induction false} CollectKeys(kvs: seq<(string, string)>)
    ensures forall i :: 0 <= i < |kvs| && kvs[i].0 != "" ==> kvs[i].0 in Collect(kvs)
    ensures forall key :: key in Collect(kvs) ==>
              key != "" && exists i :: 0 <= i < |kvs| && kvs[i] == (key, Collect(kvs)[key])
  {
    if kvs != [] {
      var n := |kvs| - 1;
      var init := kvs[..n];
      var m := Collect(init);
      CollectKeys(init);
      assert kvs == init + [kvs[n]];
      CollectAppend(init, kvs[n]);
      forall i | 0 <= i < n && kvs[i].0 != "" ensures kvs[i].0 in Collect(kvs) {
        assert init[i] == kvs[i];
      }
      forall key | key in Collect(kvs)
        ensures key != "" && exists i :: 0 <= i < |kvs| && kvs[i] == (key, Collect(kvs)[key])
      {
        if key == kvs[n].0 {
          assert kvs[n] == (key, Collect(kvs)[key]);
        } else {
          var i :| 0 <= i < n && init[i] == (key, m[key]);
          assert kvs[i] == (key, Collect(kvs)[key]);
        }
      }
    }
  }

  /** A key holds the value of the last pair that has it. */
  lemma {:induction false} CollectLast(kvs: seq<(string, string)>, i: nat)
    requires i < |kvs| && kvs[i].0 != ""
    requires forall j :: i < j < |kvs| ==> kvs[j].0 != kvs[i].0
    ensures kvs[i].0 in Collect(kvs) && Collect(kvs)[kvs[i].0] == kvs[i].1
  {
    var n := |kvs| - 1;
    var init := kvs[..n];
    assert kvs == init + [kvs[n]];
    CollectAppend(init, kvs[n]);
    if i < n {
      assert init[i] == kvs[i];
      CollectLast(init, i);
    }
  }

  /** Each pair with its key and its value cleaned. */
  function Cleaned(pairs: seq<(string, string)>): (c: seq<(string, string)>)
    ensures |c| == |pairs|
    ensures forall i :: 0 <= i < |pairs| ==> c[i] == (KeyOf(pairs[i]), ValueLabel(Some(pairs[i].1)))
  {
    seq(|pairs|, i requires 0 <= i < |pairs| => (KeyOf(pairs[i]), ValueLabel(Some(pairs[i].1))))
  }

  /** `sanitize_labels`: the dict comprehension over the cleaned pairs. */
  function SanitizeLabels(pairs: seq<(string, string)>): map<string, string> {
    Collect(Cleaned(pairs))
  }

  /** Every key and value is a well-formed label, and every key starts with a letter. */
  lemma SanitizeLabelsWellFormed(pairs: seq<(string, string)>)
    ensures forall key :: key in SanitizeLabels(pairs) ==>
              IsLabel(key) && key != "" && IsLower(key[0]) && IsLabel(SanitizeLabels(pairs)[key])
  {
    CollectWellFormed(Cleaned(pairs));
  }

  /** Pairs of well-formed labels, keys starting with a letter, collect into such a dict. */
  lemma CollectWellFormed(kvs: seq<(string, string)>)
    requires forall i :: 0 <= i < |kvs| ==> IsLabel(kvs[i].0) && (kvs[i].0 != "" ==> IsLower(kvs[i].0[0])) && IsLabel(kvs[i].1)
    ensures forall key :: key in Collect(kvs) ==> IsLabel(key) && key != "" && IsLower(key[0]) && IsLabel(Collect(kvs)[key])
  {
    CollectKeys(kvs);
    forall key | key in Collect(kvs) ensures IsLabel(key) && key != "" && IsLower(key[0]) && IsLabel(Collect(kvs)[key]) {
      var i :| 0 <= i < |kvs| && kvs[i] == (key, Collect(kvs)[key]);
    }
  }

  /**
   * The keys of `sanitize_labels` are exactly the non-empty cleaned keys of
   * the pairs: pairs whose key cleans to "" are dropped.
   */
  lemma SanitizeLabelsKeys(pairs: seq<(string, string)>)
    ensures forall i :: 0 <= i < |pairs| && KeyOf(pairs[i]) != "" ==> KeyOf(pairs[i]) in SanitizeLabels(pairs)
    ensures forall key :: key in SanitizeLabels(pairs) ==> exists i :: 0 <= i < |pairs| && KeyOf(pairs[i]) == key
  {
    var kvs := Cleaned(pairs);
    var r := Collect(kvs);
    CollectKeys(kvs);
    forall key | key in r
      ensures exists i :: 0 <= i < |pairs| && KeyOf(pairs[i]) == key
    {
      var i :| 0 <= i < |kvs| && kvs[i] == (key, r[key]);
      assert key == KeyLabel(Some(pairs[i].0));
    }
  }

  /** One pair gives the dict of its key label and value label, or nothing when the key cleans to "". */
  lemma SanitizeOne(p: (string, string))
    ensures SanitizeLabels([p]) == if KeyOf(p) != "" then map[KeyOf(p) := ValueLabel(Some(p.1))] else map[]
  {
    SanitizeNone();
    SanitizeAppend([], p);
    assert [p] == [] + [p];
  }

  /** No pairs give no labels. */
  lemma SanitizeNone()
    ensures SanitizeLabels([]) == map[]
  {
    assert Cleaned([]) == [];
  }

  /** Each key holds the cleaned value of the last pair with that cleaned key. */
  lemma SanitizeLabelsLast(pairs: seq<(string, string)>, i: nat)
    requires i < |pairs| && KeyOf(pairs[i]) != "" && LastWithKey(pairs, i)
    ensures KeyOf(pairs[i]) in SanitizeLabels(pairs)
    ensures SanitizeLabels(pairs)[KeyOf(pairs[i])] == ValueLabel(Some(pairs[i].1))
  {
    var kvs := Cleaned(pairs);
    forall j | i < j < |kvs| ensures kvs[j].0 != kvs[i].0 {
      assert KeyOf(pairs[j]) != KeyOf(pairs[i]);
    }
    CollectLast(kvs, i);
  }

  /** One more pair at the end writes its cleaned value under its cleaned key, unless that key is empty. */
  lemma SanitizeAppend(pairs: seq<(string, string)>, p: (string, string))
    ensures SanitizeLabels(pairs + [p]) ==
              if KeyOf(p) != "" then SanitizeLabels(pairs)[KeyOf(p) := ValueLabel(Some(p.1))]
              else SanitizeLabels(pairs)
  {
    CleanedAppend(pairs, p);
    CollectAppend(Cleaned(pairs), (KeyOf(p), ValueLabel(Some(p.1))));
  }

  lemma CleanedAppend(pairs: seq<(string, string)>, p: (string, string))
    ensures Cleaned(pairs + [p]) == Cleaned(pairs) + [(KeyOf(p), ValueLabel(Some(p.1)))]
  {
    var c := Cleaned(pairs + [p]);
    forall i | 0 <= i < |pairs| ensures c[i] == Cleaned(pairs)[i] {
      assert (pairs + [p])[i] == pairs[i];
    }
  }

  lemma CollectAppend(kvs: seq<(string, string)>, kv: (string, string))
    ensures Collect(kvs + [kv]) == if kv.0 != "" then Collect(kvs)[kv.0 := kv.1] else Collect(kvs)
  {
    assert (kvs + [kv])[..|kvs|] == kvs;
  }
}
