# coreos-metadata, modelled in Dafny

`coreos-metadata` runs at boot on a cloud machine. It works out which cloud
provider it runs on, either from `--provider` or from the `coreos.oem.id=`
parameter of the kernel command line. It fetches that provider's instance
metadata. It writes the attributes to a shell-sourceable file of
`COREOS_<key>=<value>` lines, and it installs the provider's SSH keys as one
labelled block of a user's authorized-keys store. The program's exit code says
how far it got: 0 for success or `--version`, 2 for a missing or invalid
provider or an unreadable command line, and 1 for a failed fetch, attribute
write or key install.

This project models `internal/main.go` in seven modules:

- `Wrappers`: `Option` and `Result`.
- `Strings`: the parts of Go's `strings` package the program uses.
  - `strings.Split` on one character.
  - `strings.SplitN(s, "=", 2)` as `Cut`.
  - `strings.TrimSpace` with the white space of `unicode.IsSpace`.
  - `strings.Join`.
- `Cmdline`: `parseCmdline`.
  - A `method` with the source's loop, proved equal to the specification function `CmdlineOem`, which takes the last token that records a value.
  - Lemmas about that function.
- `Providers`: the closed set of providers, the name check of `main`'s switch, and the `fetchMetadata` dispatch. The dispatch requires a valid name, which is why its `panic` branch is unreachable.
- `Attributes`: `writeVariable`'s line, and `writeMetadataAttributes` as a `method`.
  - The method's loop visits the attribute map in an order it picks nondeterministically, as a Go map range does.
  - It returns as a ghost result the order it visited the keys in, completed with the keys it did not reach when a write fails, and proves that this order enumerates the keys, each once.
  - Its effect on the files is proved equal to `AttrEffect`.
  - The lemmas state what holds for every visiting order: one line per attribute with a non-empty value, the same multiset of lines, and a file that is rewritten rather than appended to.
- `SshKeys`: `writeMetadataKeys` as a function over the key stores, where each store maps labels to block contents. The function covers the no-op conditions, the user lookup, the key join and the replace of the `coreos-metadata` block.
- `App`: `main`.
  - `Decide` is the outcome of a run as a function of the flags, the environment and the machine state.
  - The method `Run` takes the source's steps and is proved to reach that outcome.
  - The lemmas state the precedence rules: `--version` first, the command line only without `--provider`, validation before the fetch, and attributes before keys.

The files on disk and the key stores are values: `Files` maps paths to
contents and `Stores` maps user names to stores. They are passed into and out of
the operations. The outside world is an `Environment` value:
- the contents of `/proc/cmdline`, or `None` if it cannot be read;
- each provider's fetch result;
- the set of known users;
- the failures of the file system (`AttrFaults`) and of the key store (`KeyFaults`).

In three places the code behaves in a way that is easy to misread; the model
follows the code:
- A bare `coreos.oem.id` token, without `=`, leaves the value recorded so far
  as it is. It does not record the empty string (`Cmdline.BareFlagKeepsValue`).
- The command line is split on single spaces only. A tab or newline inside a
  token is not a separator. Only white space at a token's ends is trimmed.
- The attribute file follows the map's iteration order, which Go leaves
  unspecified. Nothing sorts it.

## Model

| member | source | states |
|---|---|---|
| Cmdline.ParseCmdline | internal/main.go:101-116 | the loop over the space-separated tokens returns `CmdlineOem` (the specification function, `LastOem` over the split command line): the value of the last token that records one, or "" |
| Cmdline.TokenValue | internal/main.go:102-112 | a token records a value exactly when, once trimmed, it starts with `coreos.oem.id=`, and the value is everything after that `=` |
| Cmdline.LastOemIsLastMatch | internal/main.go:101-116 | when the token at `j` records a value and no later token does, the result is that value |
| Cmdline.LastOemNoMatch | internal/main.go:101-116 | when no token records a value, the result is "" |
| Cmdline.BareFlagKeepsValue | internal/main.go:110-112 | a bare `coreos.oem.id` token leaves the value recorded so far unchanged |
| Cmdline.TokenValueOf | internal/main.go:102-103 | for `w1 + "coreos.oem.id=" + v + w2` with white space `w1` and `w2`, and `v` not ending in white space, the value is exactly `v`, even when `v` contains further `=` |
| Cmdline.LaterTokenWins | internal/main.go:101-116 | a final `coreos.oem.id=v` token overrides every earlier one, whatever the earlier text |
| Cmdline.ExampleLastOccurrence | internal/main.go:101-116 | `foo=1 coreos.oem.id=azure bar coreos.oem.id=ec2` selects `ec2` |
| Cmdline.TrailingSpaceTrimmed | internal/main.go:102-103 | for a command line that is the single token `coreos.oem.id=v` followed by white space `w` without a space character (such as the newline that ends `/proc/cmdline`), with `v` free of spaces and not ending in white space, the result is `v` |
| Cmdline.ExampleTrailingNewline | internal/main.go:102-103 | `coreos.oem.id=gce` followed by a newline selects `gce` |
| Strings.TrimSpaceIsInfix | internal/main.go:103 | what trimming keeps is an infix of the token with only white space on either side |
| Strings.JoinSplit | internal/main.go:102 | the tokens the command line is split into, joined back with spaces, are the command line |
| Providers.ParseProvider | internal/main.go:77-82 | a name selects a provider exactly when it is `azure`, `ec2`, `gce` or `packet` (so not ""), and then that provider's name is the given name |
| Providers.NameRoundTrip | internal/main.go:77-82 | every provider is selected by its own name and by no other |
| Providers.FetchMetadata | internal/main.go:118-131 | for a valid name, the fetch is the fetch of the provider the name selects; an invalid name cannot reach the `panic` |
| Attributes.WriteVariable | internal/main.go:133-138 | the line is empty exactly when the value is empty; otherwise it starts with `COREOS_` and ends with a newline |
| Attributes.VariableRoundTrip | internal/main.go:133-138 | the line `COREOS_<key>=<value>`, without its prefix and newline and split at its first `=`, gives back the key and the value, for keys without `=` (a split, not a shell: see "Left out") |
| Attributes.AttrEffect | internal/main.go:140-163 | no file other than the one at the given path changes; an empty path or a failed `MkdirAll` or `Create` changes nothing; on success the file holds the concatenated lines |
| Attributes.WriteMetadataAttributes | internal/main.go:140-163 | the ghost result is the order the loop visited the keys in, completed with the unvisited keys when a write fails; that order enumerates the keys, and the status and files are `AttrEffect` for it; whatever the order, it exits exactly when `MkdirAll` or `Create` fails, returns an error exactly when one of the writes it makes (one per non-empty value) fails, and changes no other file |
| Attributes.AttrEffectStatus | internal/main.go:145-161 | for every visiting order: exit exactly when `MkdirAll` or `Create` fails, an error exactly when the failing write is among the writes made, and otherwise the file exists |
| Attributes.OneLinePerPopulatedAttribute | internal/main.go:157-161 | in any visiting order: exactly as many lines as attributes with a non-empty value, the line of each such attribute among them, and every line the line of one of them |
| Attributes.WritesCount | internal/main.go:157-161 | over distinct keys, the number of lines is the number of keys with a non-empty value |
| Attributes.WritesComplete | internal/main.go:157-161 | every visited key with a non-empty value has its line in the output |
| Attributes.WritesSound | internal/main.go:157-161 | every line of the output is the line of a visited key with a non-empty value |
| Attributes.WritesPermutation | internal/main.go:157-161 | two orders over the same distinct keys give the same multiset of lines |
| Attributes.WritesOrderIndependent | internal/main.go:157-161 | every visiting order of the map gives the same multiset of lines |
| Attributes.ExampleEmptyValueSkipped | internal/main.go:157-161 | the attributes `A=x`, `B=` and `C=y` give exactly the lines `COREOS_A=x` and `COREOS_C=y`, in any order |
| Attributes.RewritesWhole | internal/main.go:150-161 | the file's earlier contents do not influence the result: only the other files do |
| Attributes.SecondRunReplaces | internal/main.go:140-161 | after a second run the files are what the second run alone would leave: the file is truncated, not appended to |
| SshKeys.KeyBlock | internal/main.go:181 | no keys give the empty block, and one key gives a block that is just that key |
| SshKeys.WriteMetadataKeys | internal/main.go:165-187 | no other user's store changes, and a failing step leaves every store as it was |
| SshKeys.KeysSkipped | internal/main.go:166-168 | an empty user name or absent keys do nothing and report success |
| SshKeys.KeysUnchangedIff | internal/main.go:165-187 | when no step fails, the stores stay the same exactly when the install is skipped or the block already holds these keys |
| SshKeys.KeysInstalled | internal/main.go:170-186 | after a successful install the user exists, the `coreos-metadata` block holds the joined keys, and every other block is as it was |
| SshKeys.EmptyKeyListClears | internal/main.go:165-186 | a present but empty key list installs an empty block |
| SshKeys.KeysIdempotent | internal/main.go:181-186 | a second install of the same keys changes nothing further: the block is replaced, not appended to |
| SshKeys.KeyBlockRoundTrip | internal/main.go:181 | splitting the block at newlines gives the keys back, for keys without newlines |
| App.Run | internal/main.go:62-98 | the steps of `main` give the outcome `Decide` states (`Decide` is the specification function of `main`: `--version`, then `ProviderName`, which reads the command line only for `--cmdline` without `--provider`, then validation, fetch, attribute file and keys), and the attributes are visited in an order that enumerates them; for every other possible order, the exit code, provider, key stores and all other files are the same |
| App.DecideOrderIndependent | internal/main.go:90-98 | the visiting order of the attribute map changes nothing but the contents of the attribute file: not the exit code, not the keys, not any other file |
| App.VersionFirst | internal/main.go:62-65 | `--version` exits with 0, fetches nothing and changes nothing, whatever the other flags |
| App.CmdlineOnlyWithoutProvider | internal/main.go:67-75 | `/proc/cmdline` influences the outcome only when `--cmdline` is set and `--provider` is empty |
| App.DecideForExit | internal/main.go:77-98 | once the name is known: exit 2, no fetch and no change exactly when the name is not a provider's; otherwise the fetch is from the provider the name selects |
| App.InstallExit | internal/main.go:90-98 | after a fetch the run exits with 0 or 1 |
| App.ValidationBeforeFetch | internal/main.go:67-88 | outside `--version`, exit 2 exactly when nothing was fetched, and then nothing changed; a fetch happens exactly for a valid name, from the provider it names |
| App.ExitCodes | internal/main.go:62-99 | every run exits with 0, 1 or 2, and outside `--version` with 0 exactly when the name is valid, the fetch succeeded, the attribute file was written and the keys were installed |
| App.KeyFailureExits | internal/main.go:95-98 | a failed key install after a written attribute file exits with 1, from the fetched provider |
| App.FetchFailureChangesNothing | internal/main.go:84-88 | a failed fetch exits with 1 and changes no file and no store |
| App.AttributesBeforeKeys | internal/main.go:90-98 | when writing the attribute file fails, the run exits with 1 and no key store is touched |
| App.MissingOemRejected | internal/main.go:67-82 | with `--cmdline` and a command line that records no value, the run exits with 2 and changes nothing |
| App.ExampleEndToEnd | internal/main.go:62-98 | `--provider=ec2 --attributes=/tmp/out --ssh-keys=core` with one attribute and one key: exit 0, the file holds `COREOS_REGION=us-east-1` and a newline, and `core`'s block holds the key |

## Left out

- Parsing the flags with Go's `flag` package: the flags are a `Flags` value.
- Printing the version and the messages to standard error: only the exit code and the state changes are modelled.
- Reading `/proc/cmdline`: its contents are an input, `None` when it cannot be read. The model works on characters, so bytes that are not valid UTF-8 are not modelled.
- The provider clients (`azure`, `ec2`, `gce` and `packet`'s `FetchMetadata`): they are network code outside `internal/main.go`, so each one's result is an input.
- `user.Lookup`: it is a set of known user names.
- The `authorized_keys_d` store: opening, locking, `Close` and `Sync` are not modelled. Their failures are fault inputs, and a store is a map from block label to contents.
- SshKeys.WriteMetadataKeys: a failed add or sync leaves the stores as they were, although the real store may be left in a partial state.
- `os.MkdirAll`: the directories it creates are not modelled, only its failure.
- `out.Close`: its error is ignored by the source, and so it is absent from the model.
- Attributes.AttrEffect: a failed write leaves the file holding the lines written before it, without the partial bytes that a short `Fprintf` may have written.
- The iteration order of a Go map is not modelled: `WriteMetadataAttributes` picks each next key nondeterministically and returns the order it used as a ghost result.
- Attributes.VariableRoundTrip: the values are written unquoted, so sourcing the file with a shell gives them back exactly only when they contain no white space, quotes, `$`, `;`, backslashes or other shell syntax; the model splits lines at their first `=` and does not model a shell.
