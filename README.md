# internaldns: a verified model of the event-to-record core

internaldns watches the Docker event stream and keeps DNS-like records in
etcd. A container that carries the label `internaldns.host` gets a record
when it is started or created and loses it when it is stopped, dies or is
destroyed. The record lives under a key built from the hostname's labels in
reverse order (`a.b.com` is stored at `/internaldns/com/b/a`). Its value is
`{"host":"<ip>"}`, where the IP address belongs to the longest configured
domain suffix of the hostname.

This project models that core of `main.go` in Dafny and proves what it does:

- `strings.dfy` (module `Strings`): the parts of Go's `strings` package the
  code uses: `Split` and `Join` on one separator character, and `HasSuffix`.
  It proves that the two are mutual inverses.
- `keyformat.dfy` (module `KeyFormat`): `reverse` as an in-place method on
  `array<string>`, proved against the function `Reversed`; `formatHostname`
  as the function `FormatHostname`; and its inverse `ParseKey`. `ParseKey` has
  no counterpart in the source. It exists to state that the key format is
  invertible.
- `resolver.dfy` (module `Resolver`): `getIPAddress` as the method
  `GetIPAddress`. Its loop visits the keys of the host table in an
  arbitrary order, chosen with `:|`, as Go's map iteration does. It is proved
  equal to the declarative `Resolve`: the address of the longest configured
  suffix, and an error exactly when no key matches.
- `reconciler.dfy` (module `Reconciler`): `handleEvent` as the method
  `HandleEvent`. It acts on a `Store` class that stands for the etcd client,
  holding the records as a `map<string, string>` field. `HandleEvent` is
  proved against `Plan` (which call, if any, the event asks for) and
  `Reconcile` (the records afterwards).
- `wrappers.dfy` (module `Wrappers`): `Option`.

The global `conf` of the source becomes an explicit, immutable `HostTable`
parameter. It maps each suffix to the `IPAddress` of its `host` entry.
Whether a put or a delete fails is decided by the network. It is passed in
as the parameter `fails`.

Some behaviours of `main.go` a reader may not expect, all modelled as written:

- The empty hostname is not rejected. Its key is the bare `/internaldns/`
  (`EmptyHostname`).
- Nothing forbids an empty suffix in the host table. Because the running
  `match` starts as `""` and is looked up at the end, such a key catches
  every hostname that no other key matches (`EmptySuffixCatchAll`).
- Suffixes are matched as plain strings, not on label boundaries
  (`NotOnLabelBoundaries`).
- A key names exactly one hostname only for hostnames without `/`
  (`KeyRoundTrip`, `FormatHostnameInjective`). A `/` inside a label makes two
  hostnames share a key (`SlashCollision`).

## Model

| member | source | states |
|---|---|---|
| Strings.Split | main.go:37 | `strings.Split` on `.`: one more part than there are separators, and no part contains the separator |
| Strings.JoinSplit | main.go:37-41 | joining the parts of a split with the same separator gives back the original string |
| Strings.SplitJoin | main.go:37-41 | splitting a join of one or more separator-free parts gives back exactly those parts |
| Strings.Join | main.go:41 | `strings.Join` on a one-character separator: no parts give `""`, and otherwise the result starts with the first part |
| Strings.JoinSeparatorCount | main.go:41 | separator-free parts are joined by exactly one separator fewer than there are parts |
| Strings.HasSuffix | main.go:47 | `strings.HasSuffix`: when it holds, the string is what precedes the suffix followed by the suffix |
| Strings.ConcatHasSuffix | main.go:47 | conversely, any string followed by `suffix` has `suffix` as a suffix |
| Strings.SplitWithoutSeparator | main.go:37 | a string without the separator splits into itself alone |
| Strings.SplitPartsFromSource | main.go:37 | a character absent from the string is absent from every part of its split |
| Strings.JoinAppend | main.go:41 | joining one more part at the end adds one separator and that part |
| KeyFormat.Reverse | main.go:29-34 | the in-place swap loop leaves the array equal to `Reversed` of its old contents, so `ss[i] == old(ss[len-1-i])` for every index and the length is kept |
| KeyFormat.Reversed | main.go:29-34 | the reversal of a sequence has the same length |
| KeyFormat.ReversedAt | main.go:29-34 | element `i` of the reversal is element `len-1-i` of the original |
| KeyFormat.ReversedTwice | main.go:29-34 | reversing twice restores the original, so applying `reverse` twice restores the slice |
| KeyFormat.ReversedCons | main.go:39 | an element put in front of a sequence ends up at the back of its reversal |
| KeyFormat.FormatHostname | main.go:36-42 | every key starts with the root `/internaldns/` |
| KeyFormat.LeadingLabel | main.go:36-42 | adding a leading label `x.` to a hostname appends `/x` to its key: the leftmost label is the deepest segment |
| KeyFormat.SingleLabel | main.go:36-42 | a hostname without dots is a single segment: its key is `/internaldns/` plus the hostname |
| KeyFormat.EmptyHostname | main.go:36-42 | there is no error path: the empty hostname gives `/internaldns/` |
| KeyFormat.ThreeLabels | main.go:36-42 | `a.b.c` with dot-free labels becomes `/internaldns/c/b/a` |
| KeyFormat.ExampleKey | main.go:36-42 | `a.b.com` becomes `/internaldns/com/b/a` |
| KeyFormat.SwapSeparators | main.go:37-41 | the segments after the root are the hostname's labels in reverse order, provided no label contains `/` |
| KeyFormat.KeyRoundTrip | main.go:37-41 | for a hostname without `/`, `ParseKey` (strip the root, split on `/`, reverse, join with `.`) gives the hostname back |
| KeyFormat.HostnameRoundTrip | main.go:37-41 | for a key under the root whose tail has no `.`, `ParseKey` succeeds and formatting its result gives the key back |
| KeyFormat.FormatHostnameInjective | main.go:37-41 | two hostnames without `/` that get the same key are equal |
| KeyFormat.SlashCollision | main.go:37-41 | `a/b.c` and `b.a.c` are different hostnames with the same key, so the `/` restriction on injectivity is needed |
| Resolver.EqualLengthSuffixes | main.go:47 | two suffixes of one hostname with the same length are equal |
| Resolver.LongestMatchUnique | main.go:45-50 | the longest matching key is unique, so the scan's result does not depend on map iteration order |
| Resolver.LongestMatchExists | main.go:45-50 | if any key is a suffix of the hostname, a longest such key exists |
| Resolver.Resolve | main.go:44-55 | the lookup fails exactly when no key of the table is a suffix of the hostname; otherwise it gives the address of a longest matching key |
| Resolver.ResolveLongest | main.go:44-55 | the result is the address of the longest matching key, whichever key that is |
| Resolver.GetIPAddress | main.go:44-55 | for every iteration order, the scan keeping the longest matching key in `match`, followed by the lookup of `match`, returns exactly `Resolve` |
| Resolver.MostSpecificSuffixWins | main.go:45-53 | with `example.com` and `cluster.example.com` configured, `svc1.cluster.example.com` resolves to the address of the longer suffix |
| Resolver.NotOnLabelBoundaries | main.go:47 | `xexample.com` matches the suffix `example.com` |
| Resolver.EmptySuffixCatchAll | main.go:45-52 | a configured empty key gives its address to every hostname that no other key matches |
| Resolver.EmptySuffixNeverFails | main.go:45-54 | with a configured empty key the lookup never fails |
| Reconciler.HostRecord | main.go:67 | the stored value `{"host":"<ip>"}` is 11 characters longer than the address and holds the address at positions 9 to len-2 |
| Reconciler.HostRecordInjective | main.go:67 | different addresses give different stored values |
| Reconciler.Apply | main.go:68-82 | a successful put leaves the key holding the value, a successful delete leaves the key absent, and every other key is unchanged |
| Reconciler.Store.Put | main.go:68-73 | on success the records are the old ones with the key set to the value; on failure they are unchanged; the call is logged either way |
| Reconciler.Store.Delete | main.go:77-82 | on success the records are the old ones without the key; on failure they are unchanged; the call is logged either way |
| Reconciler.Plan | main.go:58-83 | any store call an event asks for is at the formatted key of its `internaldns.host` attribute |
| Reconciler.Reconcile | main.go:58-82 | the records after one event: they change only if a call was planned and did not fail, and no key other than the planned call's key gains or loses a record |
| Reconciler.HandleEvent | main.go:57-85 | the records afterwards are `Reconcile` of the old ones, and the store sees exactly the planned call: none for a skipped event, otherwise that one call |
| Reconciler.SkippedEvents | main.go:58-75 | an event issues no call exactly when it lacks the attribute, its hostname matches no suffix, or its action is none of start/create/stop/die/destroy; such an event leaves the records unchanged |
| Reconciler.FailedCallChangesNothing | main.go:68-82 | a failed put or delete is only logged and never retried; in the store model a failed call changes nothing |
| Reconciler.CreateWritesRecord | main.go:65-68 | on start/create the call is a put, and afterwards the formatted key maps to `{"host":"<ip>"}` with every other key as before |
| Reconciler.RemoveDeletesRecord | main.go:75-77 | on stop/die/destroy the call is a delete, and afterwards the formatted key is absent |
| Reconciler.OnlyTheHostKeyChanges | main.go:57-85 | no key other than the formatted key of the event's hostname changes |
| Reconciler.CreateThenRemoveLeavesNoRecord | main.go:65-82 | a successful put followed by a successful delete for the same hostname leaves no record at its key |
| Reconciler.RepeatedCreateLastWriteWins | main.go:65-68 | two start events for one hostname leave the store as the second alone would |

## Left out

- The `main` event loop is not modelled (main.go:121-131). It selects over the message and error channels and resubscribes on error, which is channel-driven concurrency and I/O.
- TOML decoding of `config.toml` and the panic when it fails are not modelled (main.go:88-90). This is file I/O through a foreign library; the host table arrives as a parameter.
- The construction, 5-second dial timeout and `Close` of the etcd client, and the Docker client with its event filter, are not modelled (main.go:93-119). These are network clients. The store is only the map of its records, and the reason a call fails is reduced to the boolean `fails`.
- All `fmt.Printf` and `log` output is left out, and so are the `context.Background()` arguments. They have no effect on the records.
- Go strings are byte strings. Here one `char` stands for one byte, which changes nothing for `Split`, `Join` and `HasSuffix`, whose separators are single ASCII bytes.
- The stored value is built with `%s`, without JSON escaping, exactly as the source does. The model does not check that it is valid JSON for every address.
- The message ID and the actor ID only appear in log lines. The model carries them but does not use them.
- What etcd returns on success (the response and its revision) is not modelled. The stored records are the whole observable state.
- Reconciler.Store.Put: assumes that a failed put left the store unchanged. main.go:68-73 only logs the error and does not retry. An etcd client error such as a request timeout does not say whether the write was applied, so a real store may hold the new value after a reported failure.
- Reconciler.Store.Delete: assumes that a failed delete left the store unchanged. main.go:77-82 only logs the error and does not retry. An etcd client error such as a request timeout does not say whether the delete was applied, so a real store may have lost the key after a reported failure.
