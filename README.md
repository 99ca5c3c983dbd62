# XVA nested Monte Carlo: the sequential core, in Dafny

The repository computes XVA exposure profiles (CVA, DVA, FVA, MVA and KVA) with a
nested Monte Carlo engine. Most of the engine (path generators, valuation, the
CUDA backend) is only declared or referenced in the source, so it is not
modelled here. This project models the parts that exist and run sequentially,
and proves what they do:

- `Utils::split_string` (src/utils.cpp) splits a string on a delimiter and
  appends the pieces to a caller's vector. It is modelled as the method
  `Utils.SplitString`, proved against the specification function `Split`. That
  function is built on `FindFrom`, a model of `std::string::find`, where `None`
  stands for `npos`.
- `Utils::parse_type` (src/utils.cpp) turns a comma-separated list such as
  `CVA,KVA` into a set of `XVA` kinds and throws on the first unknown token.
  It is modelled as the method `Utils.ParseType`, proved against `Parse` /
  `ParseTokens`. The exception becomes a `ParseError` value that carries the
  offending token; `Message()` gives the text `"Unknown XVA type: " + token`.
  The set is returned together with the error, because the caller's set keeps
  the kinds inserted before the throw.
- `NMC::run` (src/nmc.cpp) reshapes the caller's result matrix to `m1` rows of
  `nb_points` values each. It is modelled as `Nmc.NMC.Run` on a `Matrix`
  object that is updated in place. `Run` is proved against the specification
  function `Reshaped`, which follows the semantics of `std::vector::resize`.

The `XVA` enumeration and the `NMC` class declaration are not among the source
files. `XVA` is a five-constructor datatype in module `Xva`. The fields of
`NMC` (`m0`, `m1`, `nb_points`, `T`) come from the constructor call in
src/simulation.cpp.

Files: `optional.dfy` (the `Option` type), `xva.dfy` (module `Xva`),
`utils.dfy` (module `Utils`, for src/utils.cpp) and `nmc.dfy` (module `Nmc`,
for src/nmc.cpp).

## Model

| member | source | states |
|---|---|---|
| `Utils.FindFromSpec` | src/utils.cpp:79-84 | `find(d, from)`, modelled by `FindFrom`, returns the first index at or after `from` where `d` occurs, with no occurrence between `from` and that index. It returns `npos` (`None`) exactly when `d` does not occur at or after `from`. |
| `Utils.EmptyDelimiterNeverAdvances` | src/utils.cpp:79-85 | With an empty delimiter, `find` matches at its own start position, so `start = end + 0` never advances and the loop does not terminate. This is why `SplitString` requires a non-empty delimiter. |
| `Utils.SplitString` | src/utils.cpp:76-87 | The vector afterwards is its old contents followed by `Split(str, delim)`. Earlier tokens are kept as a prefix and nothing is cleared. |
| `Utils.JoinSplit` | src/utils.cpp:78-86 | Joining the appended tokens with the delimiter gives back `str` exactly. |
| `Utils.SplitCount` | src/utils.cpp:79-86 | The number of tokens is one more than the number of non-overlapping occurrences of the delimiter, counted left to right. The count is an independent scanning definition (`CountFrom`). The empty string yields exactly one empty token. |
| `Utils.SplitTokensFree` | src/utils.cpp:79-86 | No token contains the delimiter. |
| `Utils.SplitWithoutDelimiter` | src/utils.cpp:79-86 | The string is split into itself alone if and only if the delimiter does not occur in it. |
| `Utils.SplitCons` | src/utils.cpp:79-84 | When the first occurrence of the delimiter comes right after `x`, the first token is `x`. The remaining tokens are the split of the text after that delimiter. |
| `Utils.SplitLeadingDelimiter` | src/utils.cpp:79-83 | A leading delimiter produces an empty first token. |
| `Utils.SplitAdjacentDelimiters` | src/utils.cpp:79-84 | Two adjacent delimiters produce an empty token between them. |
| `Utils.SplitTrailingDelimiter` | src/utils.cpp:80-86 | For a one-character delimiter, a trailing delimiter adds exactly one empty last token. |
| `Utils.SplitJoinSingle` | src/utils.cpp:76-87 | For a one-character delimiter, `Split` is the only non-empty token sequence that joins back to the string and whose tokens do not contain the delimiter. Splitting the join of such tokens returns them. |
| `Utils.TokenToXVANames` | src/utils.cpp:95-114 | A token is mapped to a kind exactly when it equals that kind's name ("CVA", "DVA", "FVA", "MVA", "KVA"). Matching is case-sensitive and nothing is trimmed. |
| `Utils.ValidPrefix` | src/utils.cpp:93-118 | The loop runs over the longest prefix of recognised tokens. It stops at the first unrecognised token, if there is one. |
| `Utils.KindsOfMembership` | src/utils.cpp:93-114 | The inserts put a kind into the set if and only if some token names it. Duplicates collapse and token order does not matter. |
| `Utils.ParseTokens` | src/utils.cpp:93-118 | The set only grows. Parsing succeeds exactly when every token names a kind, and the result is then the old set plus the named kinds. Otherwise the error carries the first unknown token, and the set holds the old set plus the kinds named before that token (no rollback). |
| `Utils.ParseType` | src/utils.cpp:89-120 | The loop's set and error equal `Parse(str, xvas)`, which is `ParseTokens` on the comma-separated tokens of `str`. |
| `Utils.ParseEmpty` | src/utils.cpp:91-118 | An empty argument is one empty token. It fails with `Unknown XVA type: ` and an empty token, and the set is unchanged. |
| `Utils.ParseTrailingComma` | src/utils.cpp:91-118 | A valid list followed by a trailing comma fails on the empty last token. The set still holds all the listed kinds. |
| `Utils.ParseOrderIndependent` | src/utils.cpp:93-114 | Any reordering of a valid token list gives the same result. |
| `Utils.ParseJoinedNames` | src/utils.cpp:89-120 | Round trip: the names of one or more kinds, joined with commas, parse without error to the old set plus exactly those kinds. |
| `Nmc.Resize` | src/nmc.cpp:20-23 | `std::vector::resize(n)` gives exactly `n` entries. It keeps the first `min(old length, n)` entries and fills new ones with the default value. |
| `Nmc.Reshaped` | src/nmc.cpp:20-24 | After reshaping there are exactly `m1` rows, each of `nb_points` entries. Entry `(i, j)` is the old entry where it existed and 0.0 otherwise. |
| `Nmc.ReshapedKeepsShaped` | src/nmc.cpp:20-24 | A matrix that already has `m1` rows of `nb_points` entries is left unchanged. |
| `Nmc.ReshapedIdempotent` | src/nmc.cpp:20-24 | Running the reshaping twice gives the same matrix as running it once. |
| `Nmc.NMC.Run` | src/nmc.cpp:17-25 | `paths` ends up as `Reshaped(old paths, m1, nb_points)`. The method modifies only `paths`. The engine's own fields and `external_paths` do not change (the method is `const` and takes a const reference). |
| `Nmc.NMC.constructor` | src/simulation.cpp:22 | The engine stores `m0`, `m1`, `nb_points` and `T` as given. |

## Left out

- `Utils::info` and `Utils::parse_arguments` (src/utils.cpp:20-74): command-line plumbing built on console output, `exit()` and the CUDA device selection call.
- `CPUSimulation::run_simulation` (src/simulation.cpp:16-58): fork-join threading, not sequential behaviour. One observation about it: the thread array has `xvas.size()` slots but is indexed by the enum value (lines 46-54). A request for a kind outside the first `xvas.size()` enum values therefore indexes past the array; assuming the enumeration declares CVA…KVA as 0…4, a request for KVA alone is one example.
- The path generators `generate_interest_rate_paths`, `generate_fx_rate_paths` and `generate_equity_paths`, and all exposure and XVA valuation: they are only referenced (src/simulation.cpp:28-30), not present, and they depend on random draws and floating-point `exp`/`sqrt`. headers/nmc.h is not part of this model (it has no declarations).
- The CUDA headers and src/main.cpp: foreign runtime calls, and a main that only prints a greeting.
- The console output of `NMC::run` (src/nmc.cpp:19): it prints `xva`, the thread id and `factor`, which are otherwise unused.
- By-reference out-parameters: `split_string`'s `tokens` and `parse_type`'s `xvas` are modelled as the value on entry plus the value returned. Aliasing between arguments is not modelled; the argument types rule it out.
- Utils.SplitString: requires a non-empty delimiter instead of modelling the non-terminating loop. `Utils.EmptyDelimiterNeverAdvances` shows why the loop cannot end.
- Utils.SplitTrailingDelimiter: stated for one-character delimiters only, which covers the "," that `parse_type` uses. With a self-overlapping delimiter such as "aa", the string "aaa" splits into "" and "a", so a trailing delimiter need not yield an empty last token.
- Utils.SplitJoinSingle: uniqueness is stated for one-character delimiters only. With "aa" as delimiter, ["", "a"] and ["a", ""] both join to "aaa" and neither token contains the delimiter.
- Nmc.NMC.Run: `size_t` counts are unbounded naturals and `double` entries are reals. Only the shape and the copied or zero-filled values matter, so no rounding is involved.
- Error recovery in `parse_type`: it accepts bare kind names only, and on an unknown token it keeps the kinds already inserted. The model follows the code (see `Utils.ParseTokens`).
