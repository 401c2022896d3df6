# gcp-ssh-ca certificate authority, modelled in Dafny

gcp-ssh-ca is an SSH certificate authority for Google Compute Engine. On each run it:

1. Resolves a set of projects: the configured project IDs, then the active projects on the first listing page of each configured folder, with repeats removed.
2. Walks the instances on the first page of each project's aggregated instance listing.
3. Reads a host public key that the instance publishes as a guest attribute.
4. Signs that key into a host certificate. The principals are the instance's IPv4 addresses, chosen by two flags.
5. Writes the certificate back into the instance's metadata.

A per-instance cool-down of twelve hours keeps an instance from being re-signed on every run.

The project models that core, one module per concern:

| module | file | models |
|---|---|---|
| `Text` | text.dfy | `strings.Split` on one character; unsigned decimal numerals as the Go IPv4 parser reads them |
| `IpPolicy` | ip_policy.dfy | `isValidIP` and `isValidPrivateIP`, over dotted-decimal IPv4 text |
| `Slices` | slices.dfy | `makeSliceUnique`, as a loop proved against the specification function `Unique` |
| `InstanceMetadata` | metadata.dfy | `addSignatureToMetadata`, a method that edits a `Metadata` object's item list in place |
| `PrincipalSelection` | principals.dfy | the principal-selection loop of `signKeysInProject` |
| `RateLimit` | ratelimiter.dfy | the rate-limiter map as a class, with the current time passed in |
| `Projects` | projects.dfy | the folder expansion, with the project directory as a function parameter |
| `Signer` | signer.dfy | `signPubkey`, with base64, key parsing and signing as functions of a `Crypto` value |
| `Issuance` | issuance.dfy | the `CertificateAuthority` class, `getUniqueProjectIDs` and the per-instance flow of `signKeysInProject` |

### How the per-instance flow is modelled

- Each listed instance comes with the answers the compute API gives about it during the pass (`Probe`):
  - the guest-attribute value;
  - the random bytes for its nonce;
  - whether its `SetMetadata` call succeeds.
- `Issuance.Step` is one iteration of the instance loop, `Issuance.Pass` the whole loop and `Issuance.ProjectPass` one project.
- `SignKeysInProject` runs the loop imperatively and is proved equal to `ProjectPass`. It uses the limiter object, `SelectPrincipals`, `SignPubkey`, and `AddSignatureToMetadata` on a fresh `Metadata` object.
- The lemmas about `Pass` state what a pass does to the limiter and which calls it issues.

### Where the code differs from its comments

The doc comments of `hasSignedMetadataInLastDay` and `recordSigningMetadata` (ca/ratelimiter.go:9-10 and 23-24) speak of 24 hours, but `rateLimitDuration` (ca/ratelimiter.go:7) is twelve hours. The model follows the code and uses twelve hours.

### Behaviour worth knowing

The model follows the code in each of these cases:

- **Rate-limit check in simulate mode.** The check is made even in simulate mode. Since simulate mode records nothing, it never limits anyone there.
- **Repeated principals.** Principals are not de-duplicated. An address that is both a NAT address and an internal address, or that repeats across interfaces, is listed every time.
- **Unreadable keys.** When a key cannot be decoded or parsed, `signPubkey` returns the empty string. The loop still writes that empty string to the instance's metadata and records the instance as signed.
- **Failed folder listing.** A failed folder listing is fatal (`log.Fatal`), so the run's project set is undefined. The model returns `None`.
- **Failed `SetMetadata` call.** A failed `SetMetadata` call ends the whole project, not just that instance.

## Model

| member | source | states |
|---|---|---|
| `Text.Split` | ca/ca.go:117 | The pieces contain no separator, there is at least one, and joining them with the separator gives back the input. |
| `Text.SplitJoin` | ca/ca.go:117 | Splitting a join of separator-free pieces returns those pieces; with `Split`'s own contract this makes split and join inverses. |
| `Text.DecimalString` | ca/ca.go:195 | The decimal text of a number is a canonical numeral (digits only, no leading zero) whose value is that number. |
| `Text.CanonicalNumeralIsDecimalString` | ca/ca.go:195 | Every canonical numeral is the decimal text of its own value, so the parser accepts exactly one spelling per octet. |
| `IpPolicy.ParseOctet` | ca/ca.go:195 | One dotted-decimal field: a canonical numeral up to 255, otherwise `None`; pinned down by `ParseFormat` and `FormatParse`. |
| `IpPolicy.IsValidIP` | ca/ca.go:194-201 | `isValidIP`: the text parses as a four-octet address. `ParseFormat` and `FormatParse` show it accepts exactly the canonical dotted-decimal texts. |
| `IpPolicy.IsValidPrivateIP` | ca/ca.go:204-213 | `isValidPrivateIP`: the source's three byte tests on a parsed address. `PrivateIffRfc1918` shows it equals RFC 1918 membership, and `PrivateIsValid` that it implies `IsValidIP`. |
| `IpPolicy.ParseIPv4` | ca/ca.go:195-196 | A successful parse yields exactly four octets. |
| `IpPolicy.ParseFormat` | ca/ca.go:194-201 | Every four-octet address, printed in dotted decimal, is accepted by `isValidIP` and parses back to itself. |
| `IpPolicy.FormatParse` | ca/ca.go:194-201 | Every string `isValidIP` accepts is the canonical dotted-decimal text of the address it denotes; no other spelling passes. |
| `IpPolicy.HighNibbleMask` | ca/ca.go:211 | The byte test `ip[1] & 0xf0 == 16` holds exactly for second octets 16 to 31. |
| `IpPolicy.PrivateIsValid` | ca/ca.go:204-213 | Every address `isValidPrivateIP` accepts is also accepted by `isValidIP`. |
| `IpPolicy.PrivateIffRfc1918` | ca/ca.go:203-213 | `isValidPrivateIP` holds if and only if the string is a valid IPv4 address lying in 10.0.0.0/8, 172.16.0.0/12 or 192.168.0.0/16 (section 3 of RFC 1918). |
| `IpPolicy.Rfc1918Octets` | ca/ca.go:210-212 | As a 32-bit number, an address lies in one of the three RFC 1918 blocks exactly when its octets pass the source's three byte tests. |
| `IpPolicy.TestVectorShortString` | ca/ca_test.go:16 | "1" is rejected by both `isValidIP` and `isValidPrivateIP`. |
| `IpPolicy.TestVectorPublic` | ca/ca_test.go:17-20 | "17.0.0.0" is a valid address but not a private one. |
| `IpPolicy.TestVectorPrivate` | ca/ca_test.go:18-21 | "10.0.0.0" is both a valid address and a private one. |
| `Slices.Unique` | ca/ca.go:215-227 | The de-duplicated list has no repeats, contains exactly the input's elements, and is no longer than the input. |
| `Slices.UniqueKeepsFirstOccurrenceOrder` | ca/ca.go:220-225 | Kept elements appear in the order of their first occurrences in the input. |
| `Slices.UniqueOfNoDuplicates` | ca/ca.go:216-227 | A list without repeats is returned unchanged. |
| `Slices.UniqueIdempotent` | ca/ca.go:216-227 | De-duplicating twice is the same as de-duplicating once. |
| `Slices.UniqueOfAppendPrefix` | ca/ca.go:220-225 | The de-duplicated prefix of a concatenation is a prefix of the concatenation's de-duplication. |
| `Slices.IndexOf` | ca/ca.go:220-225 | The first-occurrence index in which the order lemma `UniqueKeepsFirstOccurrenceOrder` is stated: the element sits there and does not occur earlier. |
| `Slices.MakeSliceUnique` | ca/ca.go:216-227 | The map-and-append loop returns exactly `Unique` of its input. |
| `InstanceMetadata.FirstWithKey` | ca/ca.go:178-183 | Returns the position of the first item with the key, or `None` exactly when no item has it. |
| `InstanceMetadata.FirstWithKeyUnique` | ca/ca.go:178-183 | A position holding the key with no earlier item holding it is the first occurrence. |
| `InstanceMetadata.WithSignature` | ca/ca.go:176-191 | The item list after the upsert: first match updated, or one item appended. `SignatureStored`, `UpdateInPlace`, `AppendWhenAbsent` and `UpsertIdempotent` pin it down. |
| `InstanceMetadata.SignatureStored` | ca/ca.go:176-191 | After the upsert the signature key is present, and its first item holds the new certificate. |
| `InstanceMetadata.UpdateInPlace` | ca/ca.go:178-182 | When the key is present, only the first matching item's value changes; length and all other items stay the same. |
| `InstanceMetadata.AppendWhenAbsent` | ca/ca.go:185-190 | When the key is absent, exactly one item with the key and the certificate is appended at the end. |
| `InstanceMetadata.UpsertIdempotent` | ca/ca.go:176-191 | Writing the same certificate twice leaves the items as after one write. |
| `InstanceMetadata.AddSignatureToMetadata` | ca/ca.go:176-191 | The in-place loop with early return leaves the object's items equal to `WithSignature` of the old items. |
| `InstanceMetadata.Metadata.constructor` | ca/ca.go:157 | The metadata object holds the instance's items. |
| `PrincipalSelection.ValidNatIPs` | ca/ca.go:135-139 | The valid NAT addresses of one interface, in access-config order; `ValidNatIPsIsKeepValid` and `NatIPsAreValid` pin it down. |
| `PrincipalSelection.NicPrincipals` | ca/ca.go:134-145 | One interface's contribution: its valid NAT addresses when external signing is on, then its private internal address when internal signing is on. |
| `PrincipalSelection.Principals` | ca/ca.go:132-146 | The principal list of an instance, interface by interface; `ExternalOnly`, `InternalOnly`, `NeitherFlag`, `BothFlags` and `PrincipalsAreValid` pin it down. |
| `PrincipalSelection.AllNetworkIPs` | ca/ca.go:142-143 | There is one internal address per interface. |
| `PrincipalSelection.PrincipalsAreValid` | ca/ca.go:132-146 | Every selected principal is a valid IPv4 address. |
| `PrincipalSelection.NatIPsAreValid` | ca/ca.go:135-139 | Every selected NAT address is valid. |
| `PrincipalSelection.ExternalOnly` | ca/ca.go:134-140 | With only external signing on, the principals are exactly the valid NAT addresses of all interfaces, in order. |
| `PrincipalSelection.InternalOnly` | ca/ca.go:141-145 | With only internal signing on, the principals are exactly the RFC 1918 internal addresses, in interface order. |
| `PrincipalSelection.NeitherFlag` | ca/ca.go:132-146 | With both flags off the principal list is empty. |
| `PrincipalSelection.BothFlags` | ca/ca.go:132-146 | With both flags on, the principals are the external selection plus the internal selection, as multisets: nothing merged or dropped. |
| `PrincipalSelection.KeepValidAppend` | ca/ca.go:135-139 | Filtering by `isValidIP` distributes over concatenation. |
| `PrincipalSelection.KeepPrivateAppend` | ca/ca.go:141-145 | Filtering by `isValidPrivateIP` distributes over concatenation. |
| `PrincipalSelection.ValidNatIPsIsKeepValid` | ca/ca.go:135-139 | The NAT selection of an interface is the `isValidIP` filter of its NAT addresses. |
| `PrincipalSelection.ExternalScenario` | ca/ca.go:132-146 | An instance with NAT 34.1.2.3 and internal 10.0.0.5, signing external addresses only, gets principals ["34.1.2.3"]. |
| `PrincipalSelection.AppendValidNatIPs` | ca/ca.go:135-139 | The inner loop appends exactly the valid NAT addresses of the access configs, in order. |
| `PrincipalSelection.SelectPrincipals` | ca/ca.go:132-146 | The nested loop returns exactly `Principals` of the interfaces and flags. |
| `RateLimit.SignedWithin` | ca/ratelimiter.go:15-20 | The cool-down test on a map: an entry exists and not more than twelve hours have passed; `NeverSignedNotLimited`, `CoolDownBoundary` and `NegativeElapsedLimited` pin it down. |
| `RateLimit.Replay` | ca/ratelimiter.go:30 | The map after a series of recordings, in order; `ReplayKeys`, `LimitedByLastRecording` and `UnrecordedUnchanged` pin it down. |
| `RateLimit.RateLimiter.constructor` | ca/ca.go:51 | The limiter starts with no entries. |
| `RateLimit.RateLimiter.HasSignedMetadataInLastDay` | ca/ratelimiter.go:11-21 | The answer is `SignedWithin` of the map: limited exactly when the instance has an entry and at most twelve hours have passed since it. |
| `RateLimit.RateLimiter.RecordSigningMetadata` | ca/ratelimiter.go:25-31 | The entry for the instance becomes the current time, and no other entry changes. |
| `RateLimit.ReplayKeys` | ca/ratelimiter.go:30 | Entries are never removed: after a series of recordings, the keys are the starting keys plus the recorded IDs. |
| `RateLimit.LimitedByLastRecording` | ca/ratelimiter.go:17-30 | Only an instance's latest recording matters: a later check at t is limited exactly when t is at most twelve hours after it. |
| `RateLimit.UnrecordedUnchanged` | ca/ratelimiter.go:30 | An instance never recorded keeps its starting entry, or its absence. |
| `RateLimit.NeverSignedNotLimited` | ca/ratelimiter.go:17 | An instance without an entry is never limited. |
| `RateLimit.CoolDownBoundary` | ca/ratelimiter.go:7-17 | The comparison is strict: limited at exactly twelve hours after signing, not limited one second later. |
| `RateLimit.NegativeElapsedLimited` | ca/ratelimiter.go:17 | Because the comparison is a strict `>`, a negative elapsed time still counts as inside the cool-down. This is a property of the test, not of the program's clock: the source's elapsed time is monotonic and never negative. |
| `Projects.ListFilter` | ca/projects.go:35 | The filter is the folder-parent prefix followed by the folder ID. |
| `Projects.ListFilterInjective` | ca/projects.go:35 | Different folders get different filters. |
| `Projects.GetAllSubFoldersIDs` | ca/projects.go:52-53 | A folder expands to itself alone. |
| `Projects.ActiveIDs` | ca/projects.go:41-47 | The IDs of the "ACTIVE" projects in response order; `ActiveIDsMembers` and `ActiveIDsAppend` pin it down. |
| `Projects.FolderProjects` | ca/projects.go:28-48 | One folder's active project IDs, or `None` when its listing fails; `GetActiveProjectsIDsInFolder` is proved against it. |
| `Projects.ActiveProjectIDs` | ca/projects.go:13-25 | All folders' active project IDs in folder order, or `None` once a listing fails; `ActiveProjectIDsFails`, `ActiveProjectIDsLength` and `ActiveProjectIDsAppend` pin it down. |
| `Projects.ActiveIDsAppend` | ca/projects.go:41-47 | The active filter keeps response order: filtering a concatenation is concatenating the filtered parts. |
| `Projects.ActiveIDsMembers` | ca/projects.go:41-47 | An ID is listed if and only if some project in the response with that ID is in state "ACTIVE". |
| `Projects.GetActiveProjectsIDsInFolder` | ca/projects.go:28-48 | A failed listing yields `None`; otherwise the result is the IDs of the active projects, in response order. |
| `Projects.ActiveProjectIDsFails` | ca/projects.go:13-25 | The expansion fails if and only if the listing of some folder fails. |
| `Projects.ActiveProjectIDsLength` | ca/projects.go:13-25 | Nothing is de-duplicated across folders: a successful expansion is as long as all per-folder lists together. |
| `Projects.ActiveProjectIDsSnoc` | ca/projects.go:17-22 | One more folder extends the expansion by that folder's active projects, and its failure aborts it. |
| `Projects.ActiveProjectIDsAppend` | ca/projects.go:17-22 | Expanding two folder lists one after the other is expanding their join, in folder order. |
| `Projects.GetActiveProjectIDs` | ca/projects.go:13-25 | The nested folder and sub-folder loop returns exactly `ActiveProjectIDs`. |
| `Signer.ToUint64` | ca/signer.go:50-51 | Go's `uint64` conversion yields a value below 2^64 and keeps values already in range. |
| `Signer.Nonce` | ca/signer.go:43-54 | The nonce is 32 bytes long: the first 32 random bytes when the reader delivers them. |
| `Signer.DecodeKey` | ca/signer.go:32-41 | The public key a key string denotes, or `None` when base64 decoding or key parsing fails; `SignPubkey` returns "" exactly in that case. |
| `Signer.NewCertificate` | ca/signer.go:43-54 | The certificate literal with one clock reading; `CertificateFields`, `ValidityWindow` and `NegativeNowWraps` pin down its fields. |
| `Signer.SignPubkey` | ca/signer.go:29-62 | Returns the empty string exactly when the key fails to decode or parse. Otherwise it returns the certificate type prefix followed by the base64 of the signed certificate for the parsed key. |
| `Signer.CertificateFields` | ca/signer.go:43-53 | The certificate is a host certificate with key ID "gcp-ssh-ca" and serial 0, for the parsed key, under the CA's public key, with a 32-byte nonce and exactly the given principals in order. |
| `Signer.ValidityWindow` | ca/signer.go:50-51 | For a non-negative signing time whose window end stays in range, the window opens at the signing time and lasts exactly the configured validity, also when that validity is negative. |
| `Signer.NegativeNowWraps` | ca/signer.go:50 | A negative `int64` Unix time (a clock before 1970) converts to a `validAfter` 2^64 higher, far in the future. |
| `Issuance.ZoneName` | ca/ca.go:117 | The ninth `/`-separated segment of the zone URL, or `None` where the source's index would panic. |
| `Issuance.Step` | ca/ca.go:110-170 | One iteration of the instance loop: skip when rate-limited, stop on a bad zone, skip without a key, sign, then write and record, or stop on a failed write. `StepRecords`, `StepKeepsLimited` and `StepCallCarriesSignature` pin it down. |
| `Issuance.Pass` | ca/ca.go:109-171 | The instance loop, stopping at the first instance that ends it; the `Pass` lemmas below pin it down. |
| `Issuance.ProjectPass` | ca/ca.go:102-171 | One project: a failed instance listing ends it at once with no calls, otherwise `Pass`; `SignKeysInProject` is proved against it. |
| `Issuance.AbortIsFinal` | ca/ca.go:163-166 | Once the loop has ended (failed write or zone panic), later instances change nothing. |
| `Issuance.SimulateWritesNothing` | ca/ca.go:153-154 | In simulate mode no `SetMetadata` call is made and the limiter is untouched. |
| `Issuance.StepRecords` | ca/ca.go:111-169 | One instance issues at most one call. It changes the limiter only when its key was found and its write succeeded, and then sets its entry to the pass time. |
| `Issuance.RecordedOnlyAfterWrite` | ca/ca.go:111-169 | Over a pass, limiter entries are only added or refreshed and at most one call is made per instance. A changed entry holds the pass time and belongs to an instance with a found key and a successful write. |
| `Issuance.QuietPass` | ca/ca.go:111-127 | A pass over instances that are all rate-limited, or have no published key, writes and records nothing. |
| `Issuance.StepKeepsLimited` | ca/ca.go:111-168 | A step never lifts a limit that holds at the pass time. |
| `Issuance.CompletedPassCoversAll` | ca/ca.go:109-171 | After a completed pass outside simulate mode, every instance is limited or has no published key. |
| `Issuance.SecondPassIsQuiet` | ca/ca.go:109-171 | A second pass right after a completed one writes and records nothing. |
| `Issuance.StepCallCarriesSignature` | ca/ca.go:149-162 | A step issues no call, or appends one whose items hold a signature value under the injected key. |
| `Issuance.WrittenValues` | ca/ca.go:149-162 | Every `SetMetadata` call carries, under "hostkeys-signed-ssh-ed25519", either a certificate line or the empty string of a failed signing. |
| `Issuance.EmptySignatureStillWritten` | ca/ca.go:149-163 | A key that does not decode is still written, as the empty string. |
| `Issuance.ProjectSetScenario` | ca/ca.go:77-83 | Configured projects ["p1"] plus folder projects ["p2", "p1"] give the project set ["p1", "p2"]. |
| `Issuance.CertificateAuthority.constructor` | ca/ca.go:37-55 | Stores the flags, the lists and the parallelism; the validity is the days times 86400 seconds; the limiter is fresh and empty. |
| `Issuance.CertificateAuthority.GetUniqueProjectIDs` | ca/ca.go:77-83 | Fails exactly when the folder expansion fails. Otherwise returns `Unique` of the configured projects followed by the folder projects: no repeats, the de-duplicated configured projects first, and exactly the members of both lists. |
| `Issuance.CertificateAuthority.SignKeysInProject` | ca/ca.go:91-173 | The instance loop leaves the limiter, the issued `SetMetadata` calls and the end status equal to `ProjectPass` of the listing. |

## Left out

- **Concurrency.** `SignKeys` fans projects out to goroutines bounded by a semaphore, then waits for them. The read-write mutex around the limiter goes with it. The model runs one project at a time and leaves the interleaving of concurrent projects out. `parallelism` is stored but has no effect.
- **Cloud API calls.** `compute.NewService`, `AggregatedList`, `GetGuestAttributes`, `SetMetadata` and the resource-manager `Projects.List` calls become inputs: the `Probe` sequence, the listing option and the `Directory` function. Their network behaviour, retries and error text are not modelled.
- **Result pages.** `AggregatedList(projectID).Do()` (ca/ca.go:102) and `projectListCall.Do()` (ca/projects.go:37) each fetch one result page and never follow `NextPageToken`. The `listing` input of `ProjectPass` and `SignKeysInProject`, and each `Directory` response, stand for that first page only: instances and folder projects on later pages are neither signed nor resolved.
- **Order of zones.** `aggregatedList.Items` is a Go map iterated in random order. The model takes the instances in one fixed order, as a flat sequence.
- **Guest-attribute panic.** `attributes.QueryValue.Items[0]` panics on an empty item list. The model takes the key as present or absent.
- **Folder recursion.** The code below the early return of `getAllSubFoldersIDs` is unreachable and is not modelled.
- **Configuration and key loading.** `loadConfigFile`, `loadCAKey`, `Create`'s file reading, logging and the debug helpers are outside the model. The constructor receives the loaded values.
- **Cryptography.** Base64 (section 4 of RFC 4648), SSH key parsing, `SignCert` and `Marshal` are library code. They appear as uninterpreted functions of `Signer.Crypto`.
- **Time.** Time is whole Unix seconds. One clock reading `now` serves a whole pass, while the source reads the clock at each check, recording and signing. Sub-second precision is not modelled. The source measures the cool-down on Go's monotonic clock: both times compared at ca/ratelimiter.go:17 come from `time.Now()` in one process, so the elapsed time is never negative and ignores wall-clock steps. The certificate window at ca/signer.go:50-51 uses the wall clock (`Unix()`). The model merges the two clocks into one `now`, so after a wall-clock step `SignedWithin` can answer differently from the program.
- **Metadata value pointers.** The nil `Value` pointer of a metadata item is not modelled; values are strings.
- `IpPolicy.IsValidIP`: IPv6 text is not modelled. Go's `net.ParseIP` also accepts IPv4-mapped IPv6 forms such as "::ffff:10.0.0.1", which `To4` turns into IPv4; the model rejects them.
- `IpPolicy.IsValidIP`: the model follows Go 1.17 and later, which rejects leading zeros in a field. Older Go versions accepted them.
- `Issuance.CertificateAuthority.constructor`: `time.Duration(daysValid) * 24 * time.Hour` is an `int64` count of nanoseconds and overflows beyond about 106751 days. The model keeps the exact number of seconds.
- `Issuance.Step`: `strings.Split(instance.Zone, "/")[8]` panics when the zone URL has fewer than nine segments, which would end the process. The model ends the project's pass with status `ZonePanic` and leaves the other projects out of scope.
