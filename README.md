# Caliban utilities, modelled in Dafny

This project models the pure and table-reshaping helpers of Caliban's
`caliban/util.py`. Caliban is a tool that submits machine-learning jobs to
the cloud. The helpers covered here:

- expand an experiment configuration into the Cartesian product of its
  choices (`dict_product`);
- reshape nested dicts (`flipm`, `invertm`, `reorderm`) and build dicts
  (`merge`, `dict_by`);
- parse `k=v` declarations and flatten a dict of flags into an argument
  list (`parse_kv_pair`, `expand_args`);
- turn script arguments and (key, value) pairs into cloud labels
  (`_is_key`, `_truncate`, `_clean_label`, `key_label`, `value_label`,
  `sanitize_labels`, `partition`, `script_args_to_labels`);
- split work into strided chunks (`n_chunks`, `chunks_below_limit`);
- convert between file paths and Python module names (`path_to_module`,
  `module_to_path`, `generate_package`).

The project has one Dafny module per concern:

- `Wrappers`: `Option`, `Result` and the Python exceptions raised.
- `PyStrings`: the `str` built-ins the helpers call (`split`, `join`,
  `strip`, `replace`).
- `ConfigExpansion`, `Tables`, `CliArgs`, `Labels`, `ScriptArgs`, `Chunks`
  and `Paths`: the helpers themselves.

The three table reshapers keep their imperative form: each is a method
whose loops fill a local `ret` dict. So do `partition`, a method whose loop
builds the sequence of windows, and `script_args_to_labels`, a method whose
loop fills its `ret` dict through `process_pair`. Each method is proved
against a predicate or a function that states the result. The other helpers
are functions, with lemmas for the properties they promise.

A Python dict is iterated in insertion order. The table methods pick any
key not yet visited, and their specifications do not depend on the order.
Where order matters, a dict is a sequence of (key, value) pairs. That is the
case for the input of `dict_product`, the pairs of `sanitize_labels` and the
items of `expand_args`.

The comment at `caliban/util.py:376-377` suggests that a lone flag is a
boolean switch handled by the trailing-flag pass. The code does otherwise,
and the model follows the code. The code at `caliban/util.py:373-374`
unpacks every window of `partition(script_args, 2)` into `k, v`. A
one-token list yields a single one-token window, so the call raises
`ValueError`. The trailing-flag pass at lines 378-379 never runs for one
token. `ScriptArgs.ScriptArgsToLabels` models the raise. The finding below
pairs it with the intended behaviour.

## Model

| member | source | states |
|---|---|---|
| ConfigExpansion.Choices | caliban/util.py:60-61 | a list offers its elements as choices, in order; any other value is a single choice |
| ConfigExpansion.DictProduct | caliban/util.py:50-67 | the number of dicts is the product of the numbers of choices, with a non-list value counting as one choice |
| ConfigExpansion.DictProductEmptyChoice | caliban/util.py:60-67 | an empty list for any key leaves no combination at all |
| ConfigExpansion.DictProductIndex | caliban/util.py:67 | order of `itertools.product`: block `a` of the output holds the first key's `a`-th choice applied to every combination of the other keys, in their order, so the last key varies fastest |
| ConfigExpansion.DictProductSound | caliban/util.py:60-67 | every output dict has exactly the input's keys, each set to one of that key's choices (`wrap_v` turns a non-list into one choice) |
| ConfigExpansion.DictProductComplete | caliban/util.py:60-67 | every dict that picks one choice for each key is among the outputs |
| ConfigExpansion.DictProductExample | caliban/util.py:60-67 | `{"a": [1, 2], "b": 3}` expands to `{"a": 1, "b": 3}` then `{"a": 2, "b": 3}` |
| Tables.FlipStep | caliban/util.py:86 | one `setdefault(k2, {})[k] = v` keeps `ret` the flip of the cells seen so far |
| Tables.FlipTable | caliban/util.py:81-88 | `ret[k2][k]` exists exactly when `table[k][k2]` does and holds the same value; no inner dict is empty |
| Tables.FlipUnique | caliban/util.py:81-88 | the flip of a table is unique, so the result does not depend on iteration order |
| Tables.FlipInvolutive | caliban/util.py:81-88 | flipping twice gives the table back when none of its inner dicts is empty |
| Tables.InverseStep | caliban/util.py:96 | one `setdefault(v, set()).add(k)` keeps `ret` the inverse of the pairs seen so far |
| Tables.InvertTable | caliban/util.py:91-98 | `k in ret[v]` exactly when `v` is listed in `table[k]`; no set is empty |
| Tables.InverseUnique | caliban/util.py:91-98 | the inverse of a table is unique |
| Tables.Index | caliban/util.py:109-111 | Python list indexing: defined exactly for `-len <= i < len`; a non-negative index is the element at that position, and a negative index `i` the element at `len + i`, counting from the end |
| Tables.Pick | caliban/util.py:108-111 | `fields[i]` of `[k, k2, v]` for an index in range |
| Tables.ReorderStep | caliban/util.py:109-111 | one pair of `setdefault` calls plus `add` keeps `ret` the reordering of the cells seen so far |
| Tables.ReorderDone | caliban/util.py:104-113 | once every cell is visited, a table with a cell forces a valid order, and `ret` is the reordering of the table |
| Tables.ReorderTable | caliban/util.py:101-113 | raises `IndexError` exactly when the table lists some value and an entry of `order` lies outside -3..2; otherwise each `[k, k2, v]`, permuted by `order`, is an entry of the result, and every entry comes from such a cell |
| Tables.ReorderUnique | caliban/util.py:101-113 | the reordering of a table is unique |
| Tables.ReorderIdentity | caliban/util.py:101-113 | the order `(0, 1, 2)` keeps the table's shape: `v in out[k][k2]` exactly when `v` is listed in `table[k][k2]` |
| Tables.Merge | caliban/util.py:116-120 | the keys are those of both dicts; `r`'s value wins for a shared key, and `l`'s value stays for the others |
| Tables.DictBy | caliban/util.py:123-128 | the keys are exactly `keys`, and each key `k` holds `f(k)` |
| CliArgs.ParseKvPair | caliban/util.py:258-275 | raises `ArgumentTypeError` with the message of lines 271-272 exactly when `s` has no '='; otherwise the key is the text before the first '=' with whitespace stripped, and the value is everything after it, further '=' included |
| CliArgs.ParseKvPairStripsKey | caliban/util.py:267-275 | `k=v` with no '=' in `k` parses to the stripped `k` and the unchanged `v` |
| CliArgs.ParseKvPairRoundTrip | caliban/util.py:267-275 | writing a stripped, '='-free key and any value as `k=v` and parsing it gives the pair back |
| CliArgs.ExpandArgs | caliban/util.py:131-138 | there is one token per flag plus one per non-`None` value |
| CliArgs.ExpandArgsAppend | caliban/util.py:137-138 | the flattening distributes over concatenation of the items |
| CliArgs.ExpandArgsPosition | caliban/util.py:137-138 | flag `i` comes right after the tokens of the earlier flags, and its value, when present, right after it |
| CliArgs.ExpandArgsFrom | caliban/util.py:137-138 | every token is a flag or the value of a flag, so a `None` value never appears |
| PyStrings.Split | caliban/util.py:232 | `str.split` on one separator character gives at least one piece, and no piece holds the separator |
| PyStrings.JoinSplit | caliban/util.py:267-274 | joining the pieces of a split with the same separator gives the string back |
| PyStrings.SplitMany | caliban/util.py:267-270 | a split gives more than one piece exactly when the separator occurs |
| PyStrings.SplitAtFirst | caliban/util.py:267-274 | the first piece is the text before the first separator, and the other pieces, joined, are the text after it |
| PyStrings.Strip | caliban/util.py:268 | `strip()` keeps a contiguous middle piece that neither starts nor ends with whitespace, and removes only whitespace |
| PyStrings.ReplaceCharAt | caliban/util.py:219 | `replace` of one character by another rewrites exactly the positions that held it |
| PyStrings.ReplaceSuffix | caliban/util.py:219 | `replace(".py", "")` on a string whose only '.' starts a final ".py" drops exactly that suffix |
| Labels.IsKeyLabel | caliban/util.py:278-285 | a token is a key exactly when it is present and starts with "-"; the dash it is recognised by never reaches its key label |
| Labels.Truncate | caliban/util.py:288-293 | the longest prefix of at most `maxLength` characters |
| Labels.LStripDashes | caliban/util.py:308 | `lstrip("-")` removes exactly the leading dashes |
| Labels.LowerCases | caliban/util.py:308 | `lower()` keeps the length, lower-cases every letter, leaves every other character as it is, and leaves no upper-case letter |
| Labels.KeepLabelChars | caliban/util.py:308 | `re.sub(r'[^a-z0-9_-]', '', ...)` leaves only label characters, and no more characters than it was given |
| Labels.KeepLabelCharsKeeps | caliban/util.py:308 | nothing else is removed: every label character is kept as often as it occurs, and the kept characters stay in their order |
| Labels.NormalizedKeeps | caliban/util.py:308 | the cleaned text holds only label characters, and exactly the label characters of the lower-cased text after its leading dashes, in order |
| Labels.CleanLabel | caliban/util.py:296-316 | always a well-formed label (only `[a-z0-9_-]`, at most 63 characters); empty exactly for `None` or when nothing survives cleaning; a key result starts with a letter |
| Labels.CleanLabelText | caliban/util.py:306-316 | the text kept is the cleaned text cut to 63 characters, or, for a key that does not start with a letter, `k` followed by the cleaned text cut to 62 |
| Labels.KeyLabel | caliban/util.py:319-324 | a well-formed label that is empty or starts with a lower-case letter |
| Labels.ValueLabel | caliban/util.py:327-332 | a well-formed label, empty for `None` |
| Labels.ValueLabelText | caliban/util.py:327-332 | a value label is the cleaned text cut to 63 characters; no `k` is ever put in front |
| Labels.KeyLabelIdempotent | caliban/util.py:319-324 | `key_label` of a key label is that label |
| Labels.ValueLabelIdempotent | caliban/util.py:327-332 | `value_label` of a value label that does not start with a dash is that label |
| Labels.ValueLabelDashNotFixed | caliban/util.py:308 | `"!-a"` cleans to `"-a"`, which cleans again to `"a"`: the dashes are stripped before other characters are removed |
| Labels.ValueLabelEmpty | caliban/util.py:327-332 | the empty value cleans to the empty label |
| Labels.CleanLabelShort | caliban/util.py:312-316 | a cleaned text shorter than 63 comes out whole, with `k` in front where a key needs one |
| Labels.CleanLabelIgnoresDash | caliban/util.py:308 | a leading dash does not change the label |
| Labels.KeyLabelPrefixesDigit | caliban/util.py:312-313 | the key `123abc` becomes `k123abc` |
| Labels.KeyLabelFlag | caliban/util.py:308-316 | the flag `--name` gives the key `name` when `name` is a short lower-case word |
| Labels.Cleaned | caliban/util.py:389 | each pair becomes its key label and its value label |
| Labels.CollectKeys | caliban/util.py:389 | the dict comprehension holds every non-empty key and nothing else, and each key holds one of its values |
| Labels.CollectLast | caliban/util.py:389 | a key holds the value of the last pair that has it |
| Labels.SanitizeLabelsKeys | caliban/util.py:384-389 | the keys are exactly the non-empty `key_label(k)` of the pairs (a key that cleans to "" is dropped) |
| Labels.SanitizeLabelsWellFormed | caliban/util.py:384-389 | every key and value is a well-formed label, and every key starts with a letter |
| Labels.SanitizeLabelsLast | caliban/util.py:384-389 | each key holds `value_label(v)` of the last pair with that cleaned key |
| Labels.SanitizeAppend | caliban/util.py:389 | one more pair writes its value label under its key label, unless the key label is empty |
| ScriptArgs.Partition | caliban/util.py:349-355 | `len(seq) - n + 1` windows `seq[i:i+n]` when `len(seq) >= n`, and otherwise exactly one window, the whole list |
| ScriptArgs.ProcessPairSanitizes | caliban/util.py:367-371 | `process_pair` leaves `ret` alone for a token that is not a flag, and otherwise adds what `sanitize_labels` makes of the one pair (flag, value), the value being "" when it is missing or is itself a flag |
| ScriptArgs.ProcessPairStep | caliban/util.py:367-371 | `process_pair` on token `i` and the token after it turns the labels of the first `i` tokens into those of the first `i + 1` |
| ScriptArgs.ScanLabels | caliban/util.py:367-379 | recording every token with its successor, and the last with `None`, gives the sanitised (flag, value) pairs |
| ScriptArgs.PairWindow | caliban/util.py:354-355 | a window of the scan in twos has two tokens exactly when the list has two or more, and then it is token `i` and the token after it |
| ScriptArgs.ScanWindows | caliban/util.py:373-374 | the `for k, v` loop raises `ValueError` for a single token, and otherwise has recorded every token but the last with its successor |
| ScriptArgs.ScriptArgsToLabels | caliban/util.py:358-381 | `None` and `[]` give `{}`; one token raises `ValueError`; otherwise the result is the sanitised (flag, value) pairs |
| ScriptArgs.ScriptArgsToLabelsCorrected | caliban/util.py:373-379 | with short windows skipped, every list gives its sanitised (flag, value) pairs |
| ScriptArgs.FlagLabelsKeys | caliban/util.py:367-371 | a key is in the result exactly when some token starting with '-' has that non-empty `key_label` |
| ScriptArgs.FlagLabelsValue | caliban/util.py:367-379 | the last flag with a key holds `value_label` of the next token, or "" when it is the final token or the next token is a flag |
| ScriptArgs.FlagThenSwitch | caliban/util.py:367-379 | a flag with a value, followed by a final flag, stands for the pairs (flag, value) and (flag, "") |
| ScriptArgs.FlagLabelsExample | caliban/util.py:358-381 | `["--foo", "bar", "--flag"]` gives `{"foo": "bar", "flag": ""}` (for any short lower-case words) |
| ScriptArgs.SingleFlagLabels | caliban/util.py:376-379 | a lone flag `["--flag"]` stands for `{"flag": ""}` |
| Chunks.NChunks | caliban/util.py:335-340 | `g` groups for `g >= 1`, none for `g <= 0` |
| Chunks.StrideIndex | caliban/util.py:340 | entry `j` of `items[i::g]` is the item at `i + j*g` |
| Chunks.StrideHas | caliban/util.py:340 | the item at `i + j*g` is entry `j` of `items[i::g]` |
| Chunks.StrideLength | caliban/util.py:340 | `items[i::g]` holds `ceil((len - i) / g)` items |
| Chunks.NChunksPlacement | caliban/util.py:335-340 | the item at position `p` is entry `p // g` of group `p % g`, so every item is in some group |
| Chunks.NChunksEntry | caliban/util.py:335-340 | entry `j` of group `i` is the item at `i + j*g`, a different position for each `(i, j)`, so no item appears twice |
| Chunks.NChunksBalanced | caliban/util.py:335-340 | group sizes differ by at most one, and earlier groups are never the smaller |
| Chunks.FloorDiv | caliban/util.py:345 | Python's `//`: the quotient rounded toward negative infinity |
| Chunks.ChunksBelowLimit | caliban/util.py:343-346 | raises `ZeroDivisionError` exactly when `limit == 0`; otherwise the items are dealt to `len // limit + 1` groups |
| Chunks.ChunksBelowLimitBound | caliban/util.py:343-346 | with a positive limit there are `len // limit + 1` groups, none holding more than `limit` items |
| Chunks.ChunksBelowLimitFive | caliban/util.py:343-346 | the bound is not strict, despite the docstring's "less than": five items under a limit of three give a group of three |
| Chunks.ChunksNegativeLimit | caliban/util.py:343-346 | a negative limit raises nothing: no groups for a non-empty list, and one empty group for the empty list |
| Paths.PathToModule | caliban/util.py:218-219 | a module name never holds '/' |
| Paths.PathToModuleDropsInner | caliban/util.py:218-219 | every ".py" is dropped, not only a final one: `a.pyc/b.py` gives `ac.b` |
| Paths.ModuleToPath | caliban/util.py:222-223 | a file path ends in ".py", and that final ".py" holds its only '.' |
| Paths.ModulePathRoundTrip | caliban/util.py:218-223 | `path_to_module(module_to_path(m)) == path_to_module(m)` |
| Paths.PathModuleRoundTrip | caliban/util.py:218-223 | `module_to_path(path_to_module(x + ".py")) == x + ".py"` when `x` holds no '.' and no "/py" |
| Paths.GeneratePackage | caliban/util.py:226-234 | the main module is the module name; the package path is "." when the name has no '.', and otherwise the text before the first '.'; neither holds '/' |

## Left out

- `current_user`, `is_mac`, `is_linux`, `enum_vals`, `compose`,
  `parse_flags_with_usage`, `TempCopy`, `capture_stdout` and the
  `validated_*` checks are not modelled. They query the platform, use Enum
  reflection, wrap absl flags and `sys.exit`, or touch the file system and
  subprocesses.
- Characters are ASCII only. `lower()`, `isalpha()`, `isspace()` and
  `strip()` are modelled for ASCII text. Non-ASCII case folding and Unicode
  whitespace are not.
- Laziness is not modelled. The generators of `dict_product` and
  `partition` are modelled as sequences.
- `dict_product` takes its dict as a sequence of (key, value) pairs. The
  soundness and completeness lemmas assume distinct keys, as a Python dict
  guarantees. A value is a list or a scalar; other iterables count as
  scalars, as `wrap_v` treats them.
- `reorderm` permutes the fields of `[k, k2, v]`, so the model gives all
  three one type. `invertm` takes each list as a sequence.
- `expand_args` takes its dict as a sequence of (flag, optional value)
  pairs in insertion order. The model does not require distinct flags.
- ScriptArgs.Partition: takes `n` as a natural number. A negative window
  size is not modelled; the only caller passes 2.
- Labels.Truncate: takes `maxLength` as a natural number. The only caller
  passes 63.
- Paths.PathModuleRoundTrip: holds only for paths without '.' or "/py"
  before the final ".py". Other paths do not survive the round trip,
  because `replace(".py", "")` also drops inner occurrences.
- Labels.ValueLabelIdempotent: requires a label that does not start with a
  dash. `Labels.ValueLabelDashNotFixed` shows that the property fails
  otherwise.
- The error message of `parse_kv_pair` is modelled as the plain string of
  lines 271-272; `argparse` formatting around it is not.

## Findings

| source | as written | input that shows it | evidently intended | confidence | as-written member | corrected member |
|---|---|---|---|---|---|---|
| caliban/util.py:373-379 | `for k, v in partition(script_args, 2)` unpacks a one-token window, and the trailing-flag pass is guarded by `len(script_args) > 1` | `["--flag"]` raises `ValueError` | a lone flag is a boolean switch, `{"flag": ""}`, as the trailing-flag comment describes | medium, not executed | ScriptArgs.ScriptArgsToLabels | ScriptArgs.ScriptArgsToLabelsCorrected |
