# Deployment matrix builder

This is a Dafny model of the pure part of `scripts/prepare-deployment.js`. That script prepares the store matrix for a CI deployment pipeline. It takes three inputs:

- a store registry, which maps a store identifier to a descriptor with a `type` tag;
- a group table, which maps a group name to an ordered list of store identifiers;
- an optional group argument.

The script resolves the requested group and keeps only the group's registered stores whose type is `"target"`. It then emits the list of `{name, config}` entries plus the `total_stores` count. It stops with exit code 1 in two cases: when the group is unknown, and when no target store remains.

Files:

- `wrappers.dfy`: `Option` (for the missing command-line argument) and `Result` (success, or one of the two fatal errors).
- `sequences.dfy`: order-preserving subsequences, and the fact that a subsequence holds no element more often than its source.
- `stores.dfy` (module `Stores`): the descriptor, the registry, the "is a target" test and the recursive filter `FilterTargets`, with the lemmas about it. `FilterUnique` is an independent reference definition of the filter. It says the filter is the only subsequence of the group that consists of targets and keeps every target occurrence.
- `deployment.dfy` (module `Deployment`): default-group selection, the builder `Build`, its properties, and `PrepareDeployment`. `PrepareDeployment` is the script's loop-by-loop pipeline, proved equal to `Build`.

Modelling choices:

- `type` is a Dafny keyword, so the descriptor's tag is the field `kind`. The descriptor's other configuration fields are kept as an opaque `settings` map. They are carried into the matrix unchanged.
- In the script, the group lookup tests the group value's truthiness (line 15). A present group value is always an array in the typed model, and even an empty array is truthy. So the lookup is exactly key presence. A group listed with `[]` passes the lookup and then fails with `NoTargetStores`, not `GroupNotFound`.
- The default group is taken for a missing argument and also for an empty-string argument, because `||` treats `""` as false (line 9).

## Model

| member | source | states |
|---|---|---|
| Deployment.RequestedGroup | scripts/prepare-deployment.js:9 | The group processed is never empty. It is the argument itself when the argument is present and non-empty, and `"target-stores"` when the argument is missing. |
| Deployment.DefaultArgumentEquivalence | scripts/prepare-deployment.js:9 | Omitting the argument, passing `""` and passing `"target-stores"` all give the same outcome. |
| Deployment.Build | scripts/prepare-deployment.js:9-46 | Fails with `GroupNotFound` exactly when the requested group is not in the table. Fails with `NoTargetStores` exactly when the group exists but holds no registered target. Every successful matrix is non-empty, and `total_stores` equals its length. Each entry names an identifier from the group that is a registered target, and carries that store's registry configuration. |
| Deployment.BuildSelectsExactlyTargets | scripts/prepare-deployment.js:22-40 | On success, the matrix names are a subsequence of the group (order kept). Each target occurs in the matrix as often as in the group (duplicates kept), and nothing else occurs. |
| Deployment.EmptyGroupHasNoTargets | scripts/prepare-deployment.js:15-34 | A group listed with no stores passes the lookup and ends in `NoTargetStores`. |
| Deployment.NonTargetIsDroppedSilently | scripts/prepare-deployment.js:22-26 | Adding an unregistered or non-target identifier anywhere in the requested group never changes the outcome, and in particular causes no error. |
| Deployment.MixedGroupExample | scripts/prepare-deployment.js:23-40 | Take a group `[a, b, c, x]` where `b` is `"global"` and `x` is unregistered. It yields the entries for `a` and `c` with their configurations, and a total of 2. |
| Deployment.PrepareDeployment | scripts/prepare-deployment.js:9-46 | The sequential pipeline (lookup, filter loop, empty check, matrix loop, count) produces the same outcome as `Build` on every input. |
| Stores.FilterTargets | scripts/prepare-deployment.js:23-26 | The filtered list is no longer than the group, and every identifier in it is a registered `"target"` store taken from the group. |
| Stores.FilterAppend | scripts/prepare-deployment.js:23-26 | Filtering a concatenation gives the concatenation of the filtered parts, so each identifier is judged on its own. |
| Stores.FilterIsSubsequence | scripts/prepare-deployment.js:23-26 | The filtered list is a subsequence of the group: relative order is preserved. |
| Stores.FilterCounts | scripts/prepare-deployment.js:23-26 | Each registered target occurs in the filtered list exactly as often as in the group, and every other identifier occurs zero times. |
| Stores.FilterEmptyIff | scripts/prepare-deployment.js:23-34 | The filtered list is empty if and only if no identifier of the group is a registered target. |
| Stores.FilterDropsNonTarget | scripts/prepare-deployment.js:22-26 | Inserting an unregistered or non-target identifier at any position leaves the filtered list unchanged. |
| Stores.FilterIdempotent | scripts/prepare-deployment.js:23-26 | Filtering an already filtered list returns it unchanged. |
| Stores.FilterUnique | scripts/prepare-deployment.js:23-26 | Suppose a list is a subsequence of the group, contains only registered targets, and keeps every occurrence of every target. Then that list is the filtered list. |

## Left out

- Reading and YAML-decoding `config/stores.yml` and `config/groups.yml` (lines 5-6) are left out because they are file I/O and a foreign library. The decoded maps are inputs, so the read/parse failure case has no counterpart.
- Console logging (lines 11, 18, 28-29, 32, 47, 49-51) is left out because it is purely observational.
- The `GITHUB_OUTPUT` lookup, the append-mode writes and the `JSON.stringify` encoding (lines 43-51) are left out because they are environment access, I/O and library encoding. The emitted values are the fields of `Output`. The sink-versus-local choice does not affect them.
- `process.exit(1)` is modelled as the `Failure` arm of `Result`. The exit code itself is not modelled.
- Dynamically-typed inputs are left out because they fall outside a typed contract. This covers a registry entry that is `null`, a `type` field that is missing or not a string, a group value that is `null` or not an array, and JavaScript prototype keys such as a group named `constructor`. A missing `type` would behave like any kind other than `"target"`.
- Stores.Descriptor: nested configuration values are represented as an opaque string-to-string map, because the script never inspects them and only copies them into the matrix.
