/**
 * Turning the arguments of a user script into labels: an overlapping scan
 * with windows of two tokens, then a separate look at the last token.
 */
module ScriptArgs {
  import opened Wrappers
  import opened Labels

  function Min(a: int, b: int): int { if a <= b then a else b }

  /**
   * `partition(seq, n)`: the windows `seq[i:i+n]` for each start `i`, one
   * position apart; when `seq` is shorter than `n` there is still exactly
   * one window, the whole of `seq`.
   */
  method Partition(s: seq<string>, n: nat) returns (windows: seq<seq<string>>)
    ensures |windows| == if |s| >= n then |s| - n + 1 else 1
    ensures forall i :: 0 <= i < |windows| ==> windows[i] == s[i..Min(i + n, |s|)]
  {
    var count := if |s| - n + 1 > 1 then |s| - n + 1 else 1;
    windows := [];
    var i := 0;
    while i < count
      invariant 0 <= i <= count
      invariant |windows| == i
      invariant forall j :: 0 <= j < i ==> windows[j] == s[j..Min(j + n, |s|)]
    {
      // A Python slice stops at the end of the list.
      windows := windows + [s[i..Min(i + n, |s|)]];
      i := i + 1;
    }
  }

  /** `process_pair`: a flag token `k` whose cleaned key is not empty records its value. */
  function ProcessPair(ret: map<string, string>, k: Option<string>, v: Option<string>): map<string, string> {
    if IsKey(k) then
      var cleanK := KeyLabel(k);
      if cleanK != "" then ret[cleanK := if IsKey(v) then "" else ValueLabel(v)] else ret
    else ret
  }

  /**
   * `process_pair` records exactly what `sanitize_labels` makes of the one
   * pair (flag, value), with "" for a missing value or one that is itself a
   * flag; a token that is not a flag leaves `ret` as it is.
   */
  lemma ProcessPairSanitizes(ret: map<string, string>, k: Option<string>, v: Option<string>)
    ensures !IsKey(k) ==> ProcessPair(ret, k, v) == ret
    ensures IsKey(k) ==> ProcessPair(ret, k, v) == ret + SanitizeLabels([(k.value, SwitchValue(v))])
  {
    if IsKey(k) {
      var p := (k.value, SwitchValue(v));
      SwitchValueLabel(v);
      SanitizeOne(p);
      assert KeyOf(p) == KeyLabel(k);
      if KeyOf(p) != "" {
        UnionOne(ret, KeyOf(p), ValueLabel(Some(p.1)));
      } else {
        assert ret + map[] == ret;
      }
    }
  }

  /** The raw value a flag takes from the token `v` after it: "" when there is none or it is a flag. */
  function SwitchValue(v: Option<string>): string {
    if v.Some? && !IsKey(v) then v.value else ""
  }

  /** That raw value cleans to the label `process_pair` records. */
  lemma SwitchValueLabel(v: Option<string>)
    ensures ValueLabel(Some(SwitchValue(v))) == if IsKey(v) then "" else ValueLabel(v)
  {
    ValueLabelEmpty();
  }

  /** Adding a dict of one key to `ret` sets that key. */
  lemma UnionOne<K, V>(ret: map<K, V>, key: K, val: V)
    ensures ret + map[key := val] == ret[key := val]
  {
  }

  /**
   * The raw value that flag token `i` takes: the next token, unless there is
   * none or it is itself a flag, in which case the flag is a boolean switch.
   */
  function FlagValue(args: seq<string>, i: nat): string
    requires i < |args|
  {
    SwitchValue(Next(args, i))
  }

  /** The (flag, raw value) pairs of the first `n` tokens, in token order. */
  function FlagPairs(args: seq<string>, n: nat): seq<(string, string)>
    requires n <= |args|
  {
    if n == 0 then []
    else FlagPairs(args, n - 1) + (if IsKey(Some(args[n - 1])) then [(args[n - 1], FlagValue(args, n - 1))] else [])
  }

  /** The labels a token list stands for: its flag pairs, sanitised. */
  function FlagLabels(args: seq<string>): map<string, string> {
    SanitizeLabels(FlagPairs(args, |args|))
  }

  /**
   * Recording token `i` against the labels of the tokens before it gives
   * the labels of the first `j == i + 1` tokens; the token that follows is
   * the value, or `None` for the last token.
   */
  lemma ProcessPairStep(args: seq<string>, i: nat, j: nat)
    requires i < |args| && j == i + 1
    ensures ProcessPair(SanitizeLabels(FlagPairs(args, i)), Some(args[i]), Next(args, i))
            == SanitizeLabels(FlagPairs(args, j))
  {
    var v := Next(args, i);
    var ps := FlagPairs(args, i);
    if IsKey(Some(args[i])) {
      var p := (args[i], FlagValue(args, i));
      assert FlagPairs(args, j) == ps + [p];
      SanitizeAppend(ps, p);
      SwitchValueLabel(v);
    } else {
      assert FlagPairs(args, j) == ps;
    }
  }

  /**
   * The state of `ret` after `process_pair` has seen the first `i` tokens:
   * each with the token after it, the final one with `None`.
   */
  function Scan(args: seq<string>, i: nat): map<string, string>
    requires i <= |args|
  {
    if i == 0 then map[] else ProcessPair(Scan(args, i - 1), Some(args[i - 1]), Next(args, i - 1))
  }

  /** The token after token `i`, or `None` for the last one. */
  function Next(args: seq<string>, i: nat): Option<string>
    requires i < |args|
  {
    if i + 1 < |args| then Some(args[i + 1]) else None
  }

  /** The scan of the first `i` tokens holds the sanitised flag pairs of those tokens. */
  lemma {:induction false} ScanLabels(args: seq<string>, i: nat)
    requires i <= |args|
    ensures Scan(args, i) == SanitizeLabels(FlagPairs(args, i))
  {
    if i == 0 {
      assert FlagPairs(args, 0) == [];
      SanitizeNone();
    } else {
      ScanLabels(args, i - 1);
      ScanLabelsStep(args, i - 1, i);
    }
  }

  /** One more token keeps the scan equal to the sanitised flag pairs; `j` is `i + 1`. */
  lemma ScanLabelsStep(args: seq<string>, i: nat, j: nat)
    requires j == i + 1 && j <= |args| && Scan(args, i) == SanitizeLabels(FlagPairs(args, i))
    ensures Scan(args, j) == SanitizeLabels(FlagPairs(args, j))
  {
    ProcessPairStep(args, i, j);
    ScanNext(args, i, j);
  }

  /**
   * Window `i` of a scan in twos holds two tokens exactly when there are at
   * least two tokens, and then it is token `i` and the token after it.
   */
  lemma PairWindow(args: seq<string>, windows: seq<seq<string>>, i: nat)
    requires |args| >= 1 && |windows| == (if |args| >= 2 then |args| - 1 else 1)
    requires i < |windows| && windows[i] == args[i..Min(i + 2, |args|)]
    ensures |windows[i]| == 2 <==> |args| >= 2
    ensures |windows[i]| == 2 ==> i + 1 < |args| && windows[i][0] == args[i] && Some(windows[i][1]) == Next(args, i)
  {
  }

  /**
   * The `for k, v in partition(script_args, 2)` loop of
   * `script_args_to_labels`: a single token cannot be unpacked into `k, v`
   * and raises `ValueError`; otherwise every token but the last has been
   * recorded with the token after it.
   */
  method ScanWindows(args: seq<string>) returns (r: Result<map<string, string>>)
    requires |args| >= 1
    ensures |args| == 1 ==> r == Err(ValueError)
    ensures |args| >= 2 ==> r == Ok(Scan(args, |args| - 1))
  {
    var ret: map<string, string> := map[];
    var windows := Partition(args, 2);
    var i := 0;
    while i < |windows|
      invariant 0 <= i <= |windows|
      invariant |args| >= 2 || i == 0
      invariant ret == Scan(args, i)
    {
      var w := windows[i];
      PairWindow(args, windows, i);
      if |w| != 2 {
        // `for k, v in partition(...)` cannot unpack a one-token window.
        return Err(ValueError);
      }
      ScanNext(args, i, i + 1);
      ret := ProcessPair(ret, Some(w[0]), Some(w[1]));
      i := i + 1;
    }
    return Ok(ret);
  }

  /**
   * `script_args_to_labels`.  `None` and the empty list give no labels; a
   * single token makes the `for k, v in ...` unpacking fail with
   * `ValueError`; otherwise the result is the sanitised flag pairs.
   */
  method ScriptArgsToLabels(scriptArgs: Option<seq<string>>) returns (r: Result<map<string, string>>)
    ensures scriptArgs.None? || scriptArgs.value == [] ==> r == Ok(map[])
    ensures scriptArgs.Some? && |scriptArgs.value| == 1 ==> r == Err(ValueError)
    ensures scriptArgs.Some? && |scriptArgs.value| >= 2 ==> r == Ok(FlagLabels(scriptArgs.value))
  {
    if scriptArgs.None? || |scriptArgs.value| == 0 {
      return Ok(map[]);
    }
    var args := scriptArgs.value;
    var scanned := ScanWindows(args);
    if scanned.Err? {
      return scanned;
    }
    var ret := scanned.value;
    // The final token, seen by the scan only as a value, may be a boolean flag.
    if |args| > 1 {
      ret := ProcessPair(ret, Some(args[|args| - 1]), None);
    }
    ScanLast(args);
    return Ok(ret);
  }

  /**
   * The same scan with the one-token case handled as the trailing-flag pass
   * intends: windows too short to unpack are skipped and the last token is
   * looked at whenever there is one, so every token list yields its labels.
   */
  method ScriptArgsToLabelsCorrected(scriptArgs: Option<seq<string>>) returns (r: map<string, string>)
    ensures scriptArgs.None? ==> r == map[]
    ensures scriptArgs.Some? ==> r == FlagLabels(scriptArgs.value)
  {
    var ret: map<string, string> := map[];
    if scriptArgs.None? || |scriptArgs.value| == 0 {
      return ret;
    }
    var args := scriptArgs.value;
    var windows := Partition(args, 2);
    var i := 0;
    while i < |windows| && |windows[i]| == 2
      invariant 0 <= i <= |windows|
      invariant i <= |args| - 1
      invariant ret == Scan(args, i)
    {
      var w := windows[i];
      PairWindow(args, windows, i);
      ScanNext(args, i, i + 1);
      ret := ProcessPair(ret, Some(w[0]), Some(w[1]));
      i := i + 1;
    }
    if i < |windows| {
      PairWindow(args, windows, i);
    }
    assert i == |args| - 1;
    ret := ProcessPair(ret, Some(args[|args| - 1]), None);
    ScanLast(args);
    return ret;
  }

  /** Recording token `i` with the token after it advances the scan to `j == i + 1` tokens. */
  lemma ScanNext(args: seq<string>, i: nat, j: nat)
    requires i < |args| && j == i + 1
    ensures Scan(args, j) == ProcessPair(Scan(args, i), Some(args[i]), Next(args, i))
  {
  }

  /** The last token is recorded with `None`, and then the scan holds the labels of all tokens. */
  lemma ScanLast(args: seq<string>)
    requires |args| >= 1
    ensures Scan(args, |args|) == ProcessPair(Scan(args, |args| - 1), Some(args[|args| - 1]), None)
    ensures Scan(args, |args|) == FlagLabels(args)
  {
    ScanLabels(args, |args|);
  }

  /** The number of flag tokens among the first `n`. */
  function FlagCount(args: seq<string>, n: nat): (c: nat)
    requires n <= |args|
    ensures c == |FlagPairs(args, n)|
  {
    if n == 0 then 0 else FlagCount(args, n - 1) + (if IsKey(Some(args[n - 1])) then 1 else 0)
  }

  lemma {:induction false} FlagCountMonotone(args: seq<string>, a: nat, b: nat)
    requires a <= b <= |args|
    ensures FlagCount(args, a) <= FlagCount(args, b)
    decreases b - a
  {
    if a < b {
      FlagCountMonotone(args, a, b - 1);
    }
  }

  /** Where the pair of flag token `i` sits among the flag pairs: after the pairs of the earlier flags. */
  function PairIndex(args: seq<string>, n: nat, i: nat): (m: nat)
    requires i < n <= |args| && IsKey(Some(args[i]))
    ensures m == FlagCount(args, i) && m < |FlagPairs(args, n)|
    ensures FlagPairs(args, n)[m] == (args[i], FlagValue(args, i))
  {
    if i == n - 1 then FlagCount(args, i)
    else
      var m := PairIndex(args, n - 1, i);
      FlagCountMonotone(args, i + 1, n - 1);
      assert FlagPairs(args, n)[m] == FlagPairs(args, n - 1)[m];
      m
  }

  /** The flag token that flag pair `m` comes from: the one with `m` flags before it. */
  function TokenIndex(args: seq<string>, n: nat, m: nat): (i: nat)
    requires n <= |args| && m < |FlagPairs(args, n)|
    ensures i < n && IsKey(Some(args[i])) && FlagCount(args, i) == m
    ensures FlagPairs(args, n)[m] == (args[i], FlagValue(args, i))
  {
    if m == |FlagPairs(args, n - 1)| then n - 1
    else
      var i := TokenIndex(args, n - 1, m);
      assert FlagPairs(args, n)[m] == FlagPairs(args, n - 1)[m];
      i
  }

  /**
   * A key is in the labels exactly when some flag token cleans to it, and
   * it is never empty.
   */
  lemma FlagLabelsKeys(args: seq<string>, key: string)
    ensures key in FlagLabels(args) <==>
              key != "" && exists i :: 0 <= i < |args| && IsKey(Some(args[i])) && KeyLabel(Some(args[i])) == key
  {
    var ps := FlagPairs(args, |args|);
    SanitizeLabelsKeys(ps);
    SanitizeLabelsWellFormed(ps);
    if key in FlagLabels(args) {
      var m :| 0 <= m < |ps| && KeyOf(ps[m]) == key;
      var i := TokenIndex(args, |args|, m);
      assert KeyLabel(Some(args[i])) == key;
    }
    if key != "" && exists i :: 0 <= i < |args| && IsKey(Some(args[i])) && KeyLabel(Some(args[i])) == key {
      var i :| 0 <= i < |args| && IsKey(Some(args[i])) && KeyLabel(Some(args[i])) == key;
      var m := PairIndex(args, |args|, i);
      assert KeyOf(ps[m]) == key;
    }
  }

  /**
   * The label of the last flag token that cleans to a key is the cleaned
   * next token, or "" when the flag is the final token or is followed by
   * another flag.
   */
  lemma FlagLabelsValue(args: seq<string>, i: nat)
    requires i < |args| && IsKey(Some(args[i])) && KeyLabel(Some(args[i])) != ""
    requires forall j :: i < j < |args| && IsKey(Some(args[j])) ==> KeyLabel(Some(args[j])) != KeyLabel(Some(args[i]))
    ensures KeyLabel(Some(args[i])) in FlagLabels(args) && FlagLabels(args)[KeyLabel(Some(args[i]))] ==
              if i + 1 < |args| && !IsKey(Some(args[i + 1])) then ValueLabel(Some(args[i + 1])) else ""
  {
    var ps := FlagPairs(args, |args|);
    var m := PairIndex(args, |args|, i);
    forall m' | m < m' < |ps| ensures KeyOf(ps[m']) != KeyOf(ps[m]) {
      var j := TokenIndex(args, |args|, m');
      if j <= i {
        FlagCountMonotone(args, j, i);
      }
    }
    assert LastWithKey(ps, m);
    SanitizeLabelsLast(ps, m);
    ValueLabelEmpty();
  }

  /** A flag with a value followed by a final flag gives the two pairs (flag, value) and (flag, ""). */
  lemma FlagThenSwitch(f: string, v: string, g: string)
    requires IsKey(Some(f)) && IsKey(Some(g)) && !IsKey(Some(v))
    ensures FlagLabels([f, v, g]) == SanitizeLabels([(f, v), (g, "")])
  {
    var args := [f, v, g];
    assert FlagPairs(args, 1) == [(f, v)];
    assert FlagPairs(args, 2) == [(f, v)];
    assert FlagPairs(args, 3) == [(f, v), (g, "")];
  }

  /**
   * `["--foo", "bar", "--flag"]` gives `{"foo": "bar", "flag": ""}`, and so
   * does the same shape for any other lower-case words.
   */
  lemma FlagLabelsExample(foo: string, bar: string, flag: string)
    requires IsWord(foo) && IsWord(bar) && IsWord(flag) && foo != flag
    ensures FlagLabels(["--" + foo, bar, "--" + flag]) == map[foo := bar, flag := ""]
  {
    var f, g := "--" + foo, "--" + flag;
    assert f[0] == '-' && g[0] == '-' && !IsKey(Some(bar));
    FlagThenSwitch(f, bar, g);
    KeyLabelFlag(foo);
    KeyLabelFlag(flag);
    NormalizedLabel(bar);
    CleanLabelShort(bar, false, bar);
    SanitizeTwo(f, bar, g);
  }

  /**
   * Two pairs with different non-empty keys, the second a switch, sanitise
   * to a dict of two labels.
   */
  lemma SanitizeTwo(f: string, v: string, g: string)
    requires KeyOf((f, v)) != "" && KeyOf((g, "")) != "" && KeyOf((f, v)) != KeyOf((g, ""))
    ensures SanitizeLabels([(f, v), (g, "")]) == map[KeyOf((f, v)) := ValueLabel(Some(v)), KeyOf((g, "")) := ""]
  {
    ValueLabelEmpty();
    SanitizeNone();
    SanitizeAppend([], (f, v));
    assert [(f, v)] == [] + [(f, v)];
    SanitizeAppend([(f, v)], (g, ""));
    assert [(f, v), (g, "")] == [(f, v)] + [(g, "")];
    assert Cleaned([]) == [];
  }

  /**
   * A lone flag stands for a boolean switch: `["--flag"]` has the labels
   * `{"flag": ""}`, which the corrected scan returns and the scan as written
   * never reaches.
   */
  lemma SingleFlagLabels(name: string)
    requires IsWord(name)
    ensures FlagLabels(["--" + name]) == map[name := ""]
  {
    var f := "--" + name;
    assert FlagPairs([f], 1) == [(f, "")];
    KeyLabelFlag(name);
    ValueLabelEmpty();
    SanitizeAppend([], (f, ""));
    assert [(f, "")] == [] + [(f, "")];
    assert Cleaned([]) == [];
  }
}
