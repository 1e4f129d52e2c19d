# Marketplace display helpers in Dafny

This project models the display layer of an NFT marketplace front end, the part of it that has behaviour you can state.
It covers three helpers:

- **Wallet-address shortening** (`formatAddress`). The first six and last four characters are kept around `...`.
- **Auction countdown** (`getTimeRemaining`). The time left until an auction's end is split into days, hours, minutes and seconds, with an `expired` flag.
- **IPFS URI resolution** (`ipfsToHTTP`). An `ipfs://` URI becomes a URL on the Pinata HTTP gateway.

Modules:

- `Optional` holds the `Option` type. It stands for a JavaScript value that may be `undefined` or `null`.
- `JsString` holds the JavaScript string operations the helpers use. Each follows the ECMAScript semantics:
  - `slice`, with negative indices counted from the end and clamped;
  - `startsWith`;
  - `indexOf`;
  - `replace` with a string pattern, which replaces only the first occurrence.
- `Helpers` models `frontend/src/utils/helpers.js`.
- `Ipfs` models `frontend/src/utils/ipfs.js`.

The clock reading `Date.now()` is a parameter `now` of `GetTimeRemaining`. All times are integer milliseconds.
For a positive integer `total` (the only case that reaches the decomposition), `Math.floor((total / k) % m)` equals `(total / k) % m` with `/` and `%` on natural numbers. So the model uses exact integer arithmetic.

## Model

| member | source | states |
|---|---|---|
| `JsString.RelativeIndex` | frontend/src/utils/helpers.js:3 | a `slice` index denotes a position within the string: a negative index counts back from the end, and the position is the point of `[0, len]` nearest to that target |
| `JsString.Slice` | frontend/src/utils/helpers.js:3 | a slice of a string is never longer than the string |
| `JsString.SliceFront` | frontend/src/utils/helpers.js:3 | `s.slice(0, n)` is the first `n` characters, or the whole string when it is shorter |
| `JsString.SliceBack` | frontend/src/utils/helpers.js:3 | `s.slice(-k)` is the last `k` characters, or the whole string when it is shorter |
| `JsString.Falsy` | frontend/src/utils/helpers.js:2 | `!v` holds for a string value exactly when it is absent (`undefined`/`null`) or the empty string |
| `JsString.StartsWith` | frontend/src/utils/ipfs.js:51 | `s.startsWith(p)` holds exactly when `p` is no longer than `s` and agrees with it character by character, i.e. when `s` is `p` followed by the rest |
| `JsString.StartsWithOccursAtZero` | frontend/src/utils/ipfs.js:51-52 | a string starts with a pattern if and only if the pattern occurs at position 0 in the sense `indexOf` uses |
| `JsString.IndexOfFrom` | frontend/src/utils/ipfs.js:52 | the result is -1 exactly when the pattern occurs at no position at or after the start; otherwise it is an occurrence with none before it |
| `JsString.IndexOf` | frontend/src/utils/ipfs.js:52 | -1 if and only if the pattern occurs nowhere; otherwise the first position where it occurs |
| `JsString.Replace` | frontend/src/utils/ipfs.js:52 | with no occurrence the string is unchanged; otherwise the first occurrence, and only it, is swapped for the replacement; in particular a pattern that starts the string is swapped as a prefix and the rest is kept |
| `Helpers.FormatAddress` | frontend/src/utils/helpers.js:1-4 | the result is "" if and only if the address is absent or empty; otherwise it has length min(6,n)+3+min(4,n), starts with the first min(6,n) characters, then `...`, and ends with the last min(4,n) characters |
| `Helpers.FormatLongAddress` | frontend/src/utils/helpers.js:3 | an address of ten or more characters shows as `a[..6] + "..." + a[n-4..]`, 13 characters |
| `Helpers.FormatLongAddressDropsMiddle` | frontend/src/utils/helpers.js:3 | for ten or more characters, the address is the shown head, the dropped middle and the shown tail, in that order |
| `Helpers.FormatShortAddress` | frontend/src/utils/helpers.js:3 | an address of 1 to 3 characters shows as itself twice around `...` |
| `Helpers.GetTimeRemaining` | frontend/src/utils/helpers.js:10-20 | `expired` holds if and only if `endTime - now <= 0`, and then all four fields are 0; otherwise seconds and minutes are below 60, hours below 24, and days is the whole days left, with no upper bound |
| `Helpers.RecomposeWholeSeconds` | frontend/src/utils/helpers.js:14-17 | while running, `((days*24 + hours)*60 + minutes)*60 + seconds` equals the whole seconds left |
| `Helpers.LastSecondShowsZero` | frontend/src/utils/helpers.js:11-17 | with 1 to 999 ms left the result is not expired, yet every field is 0 |
| `Helpers.NotExpiredEarlier` | frontend/src/utils/helpers.js:11-12 | a countdown that is not expired at `now2` is not expired at any `now1 <= now2` |
| `Helpers.CountdownNonIncreasing` | frontend/src/utils/helpers.js:11-17 | as the clock advances, the whole seconds shown never increase |
| `Helpers.DecomposeRoundTrip` | frontend/src/utils/helpers.js:14-17 | any display with hours < 24 and minutes, seconds < 60 is exactly what is shown throughout the matching second, except the all-zero display at 0 ms, which is expired; the decomposition loses only the milliseconds |
| `Ipfs.IpfsToHttp` | frontend/src/utils/ipfs.js:49-55 | "" if and only if the URI is absent or empty; an `ipfs://` URI becomes the Pinata gateway prefix followed by the rest of the URI; any other URI is returned unchanged |
| `Ipfs.IpfsUriToGateway` | frontend/src/utils/ipfs.js:51-53 | `ipfs://` followed by any string `h` resolves to the gateway prefix followed by `h` exactly |
| `Ipfs.GatewayUrlIsNotIpfsUri` | frontend/src/utils/ipfs.js:52 | no gateway URL starts with `ipfs://` |
| `Ipfs.ResolvedIsNotIpfsUri` | frontend/src/utils/ipfs.js:49-55 | no result of `ipfsToHTTP` starts with `ipfs://` |
| `Ipfs.IpfsToHttpIdempotent` | frontend/src/utils/ipfs.js:49-55 | resolving a resolved URI again returns it unchanged |
| `Ipfs.UploadedUri` | frontend/src/utils/ipfs.js:24 | the URI an upload returns starts with `ipfs://` and the rest of it is exactly the hash Pinata reported |
| `Ipfs.UploadedUriResolves` | frontend/src/utils/ipfs.js:24 | the URI an upload returns starts with `ipfs://` and resolves to the gateway URL of the same hash |

## Left out

- The marketplace, auction and NFT-registry contracts. These cover listing, buying, bidding, escrow, royalties and fees. Their Solidity source is not part of this model. test/marketplace.test.js only drives them remotely.
- `uploadFileToIPFS` and `uploadJSONToIPFS` (frontend/src/utils/ipfs.js:12-44). They are HTTP requests to Pinata. Only the URI they return, `"ipfs://" + hash`, is modelled, as `Ipfs.UploadedUri`.
- `formatEth` (frontend/src/utils/helpers.js:6-8). It works in floating point.
- `randomGradient` (frontend/src/utils/helpers.js:22-31). It uses `Math.random`.
- `Date.now()`. The clock is the `now` parameter.
- Floating-point effects in `getTimeRemaining`. The model divides exact integers. The doubles the source uses agree with this only while the millisecond totals stay well below 2^53, and only for integer `endTime` and `now`.
- Falsy values that are not strings. These are `0`, `false` and `NaN`, which `!addr` and `!uri` also treat as absent. The model takes a string or an absent value only.
- Characters outside the Basic Multilingual Plane. A JavaScript string is a sequence of UTF-16 code units, and a Dafny `char` cannot hold a lone surrogate. So the model covers strings without surrogate code units, where one `char` is one code unit. Text with other characters is left out, including a `slice(-4)` that would split a surrogate pair. Addresses and URIs are ASCII in practice.
- `$` substitution patterns in the replacement string of `replace`. These are not modelled. The gateway prefix contains no `$`.
- `shortenAddress` in frontend/src/context/Web3Context.jsx:45-48. It is textually identical to `formatAddress`, so `Helpers.FormatAddress` covers it.
- The hooks, pages and components. They are React rendering, wallet access and contract calls. One thing in them bears on this model: frontend/src/hooks/useContracts.js:3 imports `ipfsToHTTP` from `utils/helpers`, but that file does not define it; `utils/ipfs` does.
