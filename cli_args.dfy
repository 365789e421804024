/**
 * Command-line helpers: reading a `k=v` declaration, and flattening a dict
 * of flags into an argument list.
 */
module CliArgs {
  import opened Wrappers
  import opened PyStrings

  /** The message of the `ArgumentTypeError` raised for a declaration without '='. */
  function ParseError(s: string): string {
    "Couldn't parse label '" + s + "' into k=v format."
  }

  /**
   * `parse_kv_pair`: split at '=', strip the first piece as the key and join
   * the remaining pieces back with '=' as the value.  A declaration with no
   * '=' splits into a single piece and raises.
   */
  function ParseKvPair(s: string): (r: Result<(string, string)>)
    ensures r.Err? <==> '=' !in s
    ensures r.Err? ==> r.error == ArgumentTypeError(ParseError(s))
    ensures r.Ok? ==> r.value.0 == Strip(s[..FirstIndex(s, '=')])
    ensures r.Ok? ==> r.value.1 == s[FirstIndex(s, '=') + 1..]
  {
    var items := Split(s, '=');
    SplitMany(s, '=');
    var k := Strip(items[0]);
    if |items| <= 1 then Err(ArgumentTypeError(ParseError(s)))
    else
      SplitAtFirst(s, '=');
      Ok((k, Join('=', items[1..])))
  }

  /** The first '=' of `k + "=" + v` is the one after `k`, when `k` has none. */
  lemma FirstEquals(k: string, v: string)
    requires '=' !in k
    ensures '=' in k + "=" + v && FirstIndex(k + "=" + v, '=') == |k|
  {
    var s := k + "=" + v;
    assert s[|k|] == '=';
  }

  /**
   * Writing a key and a value as `k=v` and parsing it back gives the pair
   * again, when the key has no '=' and no surrounding whitespace; the value
   * may hold further '=' and whitespace of its own.
   */
  lemma ParseKvPairRoundTrip(k: string, v: string)
    requires '=' !in k && Strip(k) == k
    ensures ParseKvPair(k + "=" + v) == Ok((k, v))
  {
    ParseKvPairStripsKey(k, v);
  }

  /** Whitespace around the key is dropped, and the value is kept as written. */
  lemma ParseKvPairStripsKey(k: string, v: string)
    requires '=' !in k
    ensures ParseKvPair(k + "=" + v) == Ok((Strip(k), v))
  {
    var s := k + "=" + v;
    FirstEquals(k, v);
    assert s[..|k|] == k;
    assert s[|k| + 1..] == v;
  }

  /** The tokens one flag stands for: the flag alone, or the flag and its value. */
  function FlagTokens(item: (string, Option<string>)): seq<string> {
    if item.1.Some? then [item.0, item.1.value] else [item.0]
  }

  /** The number of flags that carry a value. */
  function ValueCount(items: seq<(string, Option<string>)>): nat {
    if items == [] then 0 else (if items[0].1.Some? then 1 else 0) + ValueCount(items[1..])
  }

  /**
   * `expand_args`: each flag, followed by its value unless the value is
   * `None`, in the order of the dict.
   */
  function ExpandArgs(items: seq<(string, Option<string>)>): (r: seq<string>)
    ensures |r| == |items| + ValueCount(items)
  {
    if items == [] then [] else FlagTokens(items[0]) + ExpandArgs(items[1..])
  }

  /** Expanding two dicts one after the other is expanding their concatenation. */
  lemma {:induction false} ExpandArgsAppend(a: seq<(string, Option<string>)>, b: seq<(string, Option<string>)>)
    ensures ExpandArgs(a + b) == ExpandArgs(a) + ExpandArgs(b)
    decreases |a|
  {
    if a != [] {
      assert (a + b)[1..] == a[1..] + b;
      ExpandArgsAppend(a[1..], b);
    } else {
      assert a + b == b;
    }
  }

  /**
   * Flag `i` sits right after the tokens of the flags before it, and its
   * value, when it has one, right after the flag.
   */
  lemma ExpandArgsPosition(items: seq<(string, Option<string>)>, i: nat)
    requires i < |items|
    ensures var p := |ExpandArgs(items[..i])|;
            p < |ExpandArgs(items)| && ExpandArgs(items)[p] == items[i].0 &&
            (items[i].1.Some? ==> p + 1 < |ExpandArgs(items)| && ExpandArgs(items)[p + 1] == items[i].1.value)
  {
    assert items == items[..i] + ([items[i]] + items[i + 1..]);
    ExpandArgsAppend(items[..i], [items[i]] + items[i + 1..]);
    assert ExpandArgs([items[i]] + items[i + 1..]) == FlagTokens(items[i]) + ExpandArgs(items[i + 1..]);
  }

  /**
   * Every token of the expansion is a flag or the value of a flag; a `None`
   * value never shows up as a token of its own.
   */
  lemma {:induction false} ExpandArgsFrom(items: seq<(string, Option<string>)>, t: string)
    requires t in ExpandArgs(items)
    ensures exists i :: 0 <= i < |items| && (t == items[i].0 || items[i].1 == Some(t))
    decreases |items|
  {
    if t in FlagTokens(items[0]) {
      assert t == items[0].0 || items[0].1 == Some(t);
    } else {
      ExpandArgsFrom(items[1..], t);
      var i :| 0 <= i < |items[1..]| && (t == items[1..][i].0 || items[1..][i].1 == Some(t));
      assert items[i + 1] == items[1..][i];
    }
  }
}
