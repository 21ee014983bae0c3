# easify macros, modelled in Dafny

The easify crate offers two procedural macros with logic worth stating:

- `dynamic_tuple!(value, count)` expands to a tuple holding `count` copies of
  `value`. It prints the value expression to text, parses the count literal as
  a `usize`, repeats the text `count` times, joins the copies with `", "` and
  wraps the result in parentheses. An unparseable count aborts the expansion
  with "Invalid count of arguments".
- `let_unpack!(a, *b, c = v)` binds names to the parts of a vector. Slots before
  the `*` slot take elements from the front. Slots after it take elements from
  the end. The `*` slot takes the contiguous run in between. Its implementation
  is not part of this model. The rule is modelled as the crate's tests pin it down.

Files:

- `wrappers.dfy`: `Option` and `Result`.
- `strings.dfy` (module `Strings`): repeating a value, the slice join, and a
  splitter used as the join's inverse.
- `dynamic_tuple.dfy` (module `DynamicTuple`): the count parse, the tuple text
  and the whole expansion `Expand`. It also holds a reader `ParseTuple`, used
  only to state what the generated text contains.
- `let_unpack.dfy` (module `LetUnpack`): slots, the head/rest/tail `Split`,
  per-slot `Unpack`, and the two tested scenarios.

The doc comment of `dynamic_tuple` (easify-macros/src/lib.rs:19-20) says a count
of one gives `(2, )`. The code at lines 61-65 gives `(2)`, with no trailing
comma. Rust reads that as a parenthesised expression, not a one-element tuple.
The model follows the code; `DynamicTuple.OneCount` proves both the code's
output and its difference from the documented one.

## Model

| member | source | states |
|---|---|---|
| Strings.Repeat | easify-macros/src/lib.rs:61-63 | the element list has exactly `count` entries and each is the unmodified value text |
| Strings.JoinLoop | easify-macros/src/lib.rs:64 | joining left to right, the way the standard library does, gives the parts with one separator between each two neighbours |
| Strings.JoinLength | easify-macros/src/lib.rs:64 | the joined text is as long as all parts together plus one separator per gap |
| Strings.SplitJoin | easify-macros/src/lib.rs:64 | cutting the joined text at the separator gives back the parts, when no part holds the separator's first character |
| Strings.JoinSplit | easify-macros/src/lib.rs:64 | re-joining the pieces of a split restores the text |
| DynamicTuple.ParseCount | easify-macros/src/lib.rs:57 | the count parses exactly when it is a non-empty string of decimal digits whose value fits in a `usize`, and then to that value |
| DynamicTuple.ParseCountRoundTrip | easify-macros/src/lib.rs:57 | a decimal count parses to itself when it fits in a `usize` and fails otherwise |
| DynamicTuple.CountRange | easify-macros/src/lib.rs:57 | the expansion aborts exactly when the count is above the `usize` range |
| DynamicTuple.Expand | easify-macros/src/lib.rs:52-68 | no tuple is produced exactly when the count does not parse; otherwise the text is parenthesised and, for a non-empty value text without commas, reads back as `count` copies of the value |
| DynamicTuple.TupleText | easify-macros/src/lib.rs:65 | the output starts with `(` and ends with `)` |
| DynamicTuple.TupleRoundTrip | easify-macros/src/lib.rs:61-65 | when the value text is non-empty and holds no comma, reading the output back yields exactly `count` elements, each equal to the value text |
| DynamicTuple.TupleLayout | easify-macros/src/lib.rs:61-65 | for every value text and positive count, copy `i` of the value sits at `1 + i·(|v| + 2)`, `", "` follows every copy but the last, and the output is `count·(|v| + 2)` characters long |
| DynamicTuple.ZeroCount | easify-macros/src/lib.rs:61-65 | a zero count yields exactly `()` |
| DynamicTuple.OneCount | easify-macros/src/lib.rs:61-65 | a count of one yields `(v)`, not the documented `(v, )` |
| DynamicTuple.TupleLength | easify-macros/src/lib.rs:61-65 | for a positive count the output length is `2 + count·|v| + 2·(count − 1)` |
| DynamicTuple.FiveThreeTimes | easify-macros/src/lib.rs:25-26 | value `5` with count `3` expands to `(5, 5, 5)` |
| LetUnpack.RestIndex | tests/let_unpack_tests.rs:11 | the rest slot is the one position carrying the `*` marker |
| LetUnpack.Split | tests/let_unpack_tests.rs:8-23 | the head has `r` elements, the tail `k − 1 − r`, the rest `n − (k − 1)`, and head, rest and tail concatenate to the input |
| LetUnpack.SplitUnique | tests/let_unpack_tests.rs:8-23 | any cut of the input with those head and tail sizes is the split |
| LetUnpack.Unpack | tests/let_unpack_tests.rs:8-23 | slot `i` before the rest gets `s[i]`; the rest gets `s[r .. n − k + r + 1]`; slot `i` after it gets `s[n − k + i]`; names keep slot order |
| LetUnpack.UnpackReconstructs | tests/let_unpack_tests.rs:10-22 | the bound values, read in slot order, reconstruct the input exactly |
| LetUnpack.RestLength | tests/let_unpack_tests.rs:13-20 | the rest slot binds a run of `n − (k − 1)` elements |
| LetUnpack.TailBinding | tests/let_unpack_tests.rs:18-22 | slot `i` after the rest slot is named as in the pattern and binds the element `k − i` places from the end of the input |
| LetUnpack.PrependKeepsTail | tests/let_unpack_tests.rs:18-22 | tail slots are counted from the end: more elements in front do not change them |
| LetUnpack.AppendKeepsHead | tests/let_unpack_tests.rs:10-12 | head slots are counted from the front: more elements behind do not change them |
| LetUnpack.ItWorks | tests/let_unpack_tests.rs:9-15 | `a, *b, c` over `[5, 3, 7]` binds `a = 5`, `b = [3]`, `c = 7` |
| LetUnpack.ItWorks2 | tests/let_unpack_tests.rs:17-23 | `*a, b, c` over `[5, 6, 3, 7]` binds `a = [5, 6]`, `b = 3`, `c = 7` |
| LetUnpack.LeadingRestTakesAllButLastTwo | tests/let_unpack_tests.rs:18-22 | with a leading rest, `b` and `c` are the last two elements whatever the length, and the rest is everything before them |

## Left out

- Parsing the macro input into an expression and an integer literal (easify-macros/src/lib.rs:40-53) is done by the `syn` library. The value's printed text (line 56) is an opaque string here. The count is the literal's normalised decimal digits.
- Turning the generated text back into tokens (easify-macros/src/lib.rs:68) is `proc_macro` tokenising. It is not modelled, and neither is whether `(2)` type-checks as a tuple.
- DynamicTuple.UsizeMax: the `usize` range is taken to be 64 bits, the width of the host the macro runs on; a 32-bit host is not modelled.
- DynamicTuple.Expand: the read-back property is stated only for value texts that are non-empty and hold no comma. The reader cuts at every `", "`, so a value like `f(a, b)` would split into more pieces.
- DynamicTuple.TupleRoundTrip: the read-back is stated for non-empty, comma-free value texts only, for the same reason; `DynamicTuple.TupleLayout` states the positions of the copies and separators for every value text.
- `add` in src/lib.rs only expands `dynamic_tuple!(5, 3)`; that expansion is covered by `DynamicTuple.FiveThreeTimes`.
- The source of `let_unpack` is not part of this model; the rule is the one its tests pin down. `mut` markers are not modelled.
- Error reporting for a pattern without exactly one `*` slot, or for an input shorter than k − 1, is not modelled: the crate's tests exercise neither. The `WellFormed` and length preconditions exclude those inputs.
- Whether the rest slot is borrowed or owned is not modelled; the tests compare it against `&vec![...]`.
