# DNS provider: credential mapping and include lists

This project models the two pieces of original logic in the Crossplane DNS
provider (`provider-dns-v2`).

1. **Credential-to-configuration mapping** (module `DnsAuth`). The decoded
   ProviderConfig secret is a flat `map[string]string`. It is turned into the
   nested block that the Terraform DNS provider reads under `update`.
   - The `rfc` credential chooses the authentication mode. `"3645"` selects
     GSS-TSIG (RFC 3645): realm, username, password and keytab go into a
     one-element `gssapi` list. `"2845"` selects secret key transaction
     authentication (RFC 2845): `key_name`, `key_algorithm` and `key_secret`
     are copied to the top level. Any other value, or no `rfc`, selects no
     authentication fields.
   - `server` and the transport options (`port`, `retries`, `timeout`,
     `transport`) are copied verbatim, as strings, in every mode.
   - The provider configuration wraps the result as `{ "update": [authConfig] }`.

   Configuration values are the datatype `Value = Str(string) | Blocks(seq<map<string, Value>>)`.
   A Go `map[string]any` that `mergeMaps` updates in place is the class
   `ConfigMap`, whose `entries` the methods reassign. Maps that are built
   locally and never shared are `map<string, Value>` locals. Go's random map
   iteration order is modelled by choosing an arbitrary remaining key at each
   step, so every loop contract holds for every order.

2. **Include lists** (module `ProviderConfig`). `resourceList` turns the key
   set of an external-name table into a list of regular expressions anchored at
   the end (`name + "$"`). It fills a preallocated array slot by slot while
   ranging over the table. The model proves four things: the length is the
   table's size; every element is an anchored name; there are no repeats; and
   the list is a permutation of the anchored key set. The order of the list is
   left free, because Go's map iteration order is random.

## Model

| member | source | states |
|---|---|---|
| `DnsAuth.BuildAuthConfig` | internal/clients/dns-v2.go:191-215 | `server` is present iff it is a credential, with the same string. `gssapi` is present iff `rfc` is exactly `"3645"`, and then it is a one-element list whose map holds exactly the credentials among realm/username/password/keytab, unchanged. Each `key_*` is present iff `rfc` is exactly `"2845"` and it is a credential, unchanged. Each transport option is present iff it is a credential, unchanged, in every mode. No other key (not `rfc`, not the GSS-TSIG fields, no unknown credential) is at the top level. |
| `DnsAuth.BuildGssTsigAuthConfig` | internal/clients/dns-v2.go:217-238 | The result's keys are exactly those of {realm, username, password, keytab} that are credentials, each mapped to the credential's string. |
| `DnsAuth.BuildSecretBasedTransactionAuthConfig` | internal/clients/dns-v2.go:240-257 | The result's keys are exactly those of {key_name, key_algorithm, key_secret} that are credentials, each mapped to the credential's string. |
| `DnsAuth.BuildOptionalConfig` | internal/clients/dns-v2.go:259-280 | The result's keys are exactly those of {port, retries, timeout, transport} that are credentials, each mapped to the credential's string with no numeric conversion. |
| `DnsAuth.MergeMaps` | internal/clients/dns-v2.go:282-287 | After the in-place merge, `a`'s keys are its old keys plus `b`'s keys. Every key of `b` maps to `b`'s value. Every other old key of `a` keeps its old value. This holds for every iteration order of `b`. |
| `DnsAuth.BuildProviderConfiguration` | internal/clients/dns-v2.go:81-85 | The provider configuration has exactly the key `update`. That key holds a one-element list whose block satisfies every promise of `BuildAuthConfig` for the same credentials. |
| `DnsAuth.VocabularyDisjoint` | internal/clients/dns-v2.go:28-48 | The transaction keys, the transport options and {server, gssapi} are pairwise disjoint. So neither merge in `buildAuthConfig` overwrites an earlier entry. `rfc` and the GSS-TSIG credential names are never output keys. |
| `DnsAuth.AuthConfigDetermined` | internal/clients/dns-v2.go:193-215 | Any two maps that meet all the promises about the auth configuration for the same credentials are equal. The result depends only on the credentials, not on merge or iteration order. |
| `DnsAuth.ModesExclusive` | internal/clients/dns-v2.go:200-209 | `gssapi` and the `key_*` keys never appear together. When `rfc` is absent or any other string, neither appears, even if the credentials contain those fields. |
| `ProviderConfig.ResourceList` | config/provider.go:91-102 | The list has exactly `len(t)` elements, so an empty table gives an empty list. Every element is `n + "$"` for a key `n` of `t`. Every key contributes its pattern. No element repeats. The multiset of the list equals the set of anchored keys. The array index used for each write is in bounds, and it ends at `len(t)`. |
| `ProviderConfig.AnchorInjective` | config/provider.go:98 | Two names with the same anchored pattern are the same name. |
| `ProviderConfig.AnchoredEnumeration` | config/provider.go:96-100 | If a list anchors, slot by slot, an enumeration without repeats of the table's keys, then it covers every key once. Its multiset is then the set of anchored keys. |
| `ProviderConfig.DistinctCoverIsPermutation` | config/provider.go:94-100 | A sequence without repeats whose elements are exactly those of a set has that set as its multiset. |

## Left out

- `TerraformSetupBuilder` apart from lines 81-85 (internal/clients/dns-v2.go:56-97): resolving the ProviderConfig, extracting credentials from a Kubernetes secret, `json.Unmarshal` of the secret, and `xpprovider.GetProvider`. These are Kubernetes API calls, I/O and foreign library calls. `BuildProviderConfiguration` starts from the already decoded credential map.
- `resolveProviderConfig`, `resolveLegacy`, `resolveModern` (internal/clients/dns-v2.go:99-173): Kubernetes client `Get`, scheme lookup and usage tracking against the API server.
- `toSharedPCSpec` (internal/clients/dns-v2.go:175-189): a JSON marshal/unmarshal round trip through library code.
- `GetProvider`, `GetProviderNamespaced` (config/provider.go:31-89): these only assemble upjet provider options and embedded schema files. The external-name tables that they pass to `resourceList` are not part of this model, so `ResourceList` is generic over the table's value type.
- internal/controller/cluster/zz_setup.go: generated controller registration.
- The GSS-TSIG and TSIG protocols themselves: they live in the external Terraform DNS provider.
- Aliasing of the nested `gssapi` block: Go stores a reference to the sub-builder's map inside `[]any{authConfig}`. The model stores its value. Nothing writes to that map afterwards, so the observable configuration is the same.
- `ProviderConfig.ResourceList` returns the contents of the filled array, not a slice that shares it. The caller only passes the list on.
