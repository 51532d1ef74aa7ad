# ID-card page: handle intake, avatar resolution and card URLs

This project is a Dafny model of the card generator's page script. A visitor types an X/Twitter handle. The submit handler does several things:

- trims the input;
- drops one leading `@`;
- accepts the result only when it is 1 to 15 characters of `[A-Za-z0-9_]`;
- writes the `@handle` label and a random `Gate GG · Row RR · Seat SS` label;
- points the QR image at a `qrserver` address that encodes `https://x.com/<handle>` and a clock token;
- shows the card;
- loads the avatar;
- enables the download button once the QR image has settled.

The avatar is resolved as a low/high pair:

1. The legacy syndication lookup is tried first: its `_normal` thumbnail is the low image, and the same address with `_400x400` is the high one.
2. If that gives nothing, the unavatar JSON lookup is tried: one image serves as both.
3. If both fail, the low image is the 64-pixel unavatar address. The high image is whichever of six cache-busted candidates loads first in one of two timed races.

Every image goes through the images.weserv.nl proxy, so the rasterised card can include it. `loadAvatar` shows the low image, or an inline SVG placeholder, and swaps to the high image when it differs and loads. The retry link reads the handle back from the label and reloads the avatar.

Modules:

- `Wrappers`: `Option`.
- `JsString`: the JavaScript string operations the script uses, with their ECMA-262 meaning:
  - `trim` over the WhiteSpace and LineTerminator code points;
  - `replace(/^@/, "")`;
  - `replace` with a string pattern, which replaces only the first occurrence (the script's only replacement string, `_400x400`, has no `$` patterns);
  - ASCII `toLowerCase`;
  - `String(n)` for n below 10^21;
  - `padStart`.
- `UriComponent`: `encodeURIComponent` on code points, as UTF-8 bytes written as upper-case `%XX`. It has a reference decoder as its partner, and `DecodeEncode` proves the round trip.
- `AvatarUrls`:
  - `proxify` and what the proxy reads back as its `url` parameter;
  - the cache-busting `bust`;
  - `avatarSources`, which is a loop method proved against a list function;
  - the two lookup addresses, the 64-pixel fallback and the QR address.
- `Seat`: `randomSeat`.
- `Handle`: the submit handler's accept/reject decision, the label and the retry handler's read-back.
- `Avatar`: `pickAvatarPair` and the image `loadAvatar` ends up showing.
- `IdCard`: the page as a class, `CardPage`. Its fields are the label texts, the QR and profile image sources, the fallback's visibility, the page switch and the download button. `LoadAvatar`, `Render`, `Submit` and `Retry` update them.

Inputs the script gets from the outside world are parameters:

- the three `Math.random()` draws, already scaled and floored;
- `Date.now()` readings, as natural numbers;
- the answers of the two JSON lookups;
- which candidate wins each image race, or none when the 2-second timer fires first;
- whether the high-resolution image loads.

These are collected in `Avatar.Network`. A race can only be won by one of the six candidates it was given (`Network.WellFormed`).

`encodeURIComponent` follows ECMA-262: it leaves `! * ' ( )` unescaped as well as RFC 3986's unreserved characters. `ParamValueEncode` relies on the fact that no encoded component contains `&`.

Two properties show behaviour a reader might not expect:

- `Avatar.RacedProxyProxiedAgain`: the race candidates include the proxied forms, and `pickAvatarPair` proxies the winner again. So when a proxied candidate wins, the high image asks the proxy to fetch its own URL.
- `Avatar.LegacyPairDistinct`: the legacy pair only upgrades when the thumbnail address contains `_normal`.

## Model

| member | source | states |
|---|---|---|
| JsString.TrimOfPadded | script.js:148 | trimming whitespace, an unpadded middle and whitespace gives exactly the middle |
| JsString.TrimDecomposes | script.js:148 | every string is whitespace, its trimmed form and whitespace, and the trimmed form starts and ends with a non-whitespace character |
| JsString.TrimIdempotent | script.js:148 | trimming twice is trimming once |
| JsString.StripAt | script.js:148 | `replace(/^@/, "")`: a leading `@` is removed and the rest returned; a string not starting with `@` is returned unchanged |
| JsString.StripAtSplit | script.js:148 | `replace(/^@/, "")` removes at most one leading `@`: the input is that `@` (or nothing) followed by the result |
| JsString.IndexOfFrom | script.js:62 | the result is the least index at or after the start where the pattern occurs, or None when it occurs nowhere there |
| JsString.ReplaceFirst | script.js:62 | with no occurrence the string is unchanged; otherwise only the first occurrence is replaced |
| JsString.NatToString | script.js:40-42 | `String(n)` is all digits, has no leading zero, and is one character exactly when n < 10 |
| JsString.NatToStringValue | script.js:40-42 | the digits of `String(n)` denote n |
| JsString.ToLower | script.js:81 | the result has the input's length and each character lowered, ASCII letters only |
| JsString.ToLowerSpec | script.js:81 | the result holds no upper-case ASCII letter, and lowering it again changes nothing |
| JsString.PadStart | script.js:40-42 | `padStart` gives the longer of the string and the target length, the string at its end and only fill characters before it |
| UriComponent.Encode | script.js:30 | an encoded component is never shorter than its input and holds only unescaped characters, `%` and upper-case hex digits |
| UriComponent.EncodeAppend | script.js:30 | encoding distributes over concatenation |
| UriComponent.EncodeFixedPoint | script.js:30 | a string is its own encoding exactly when every character is in the unescaped set; otherwise the encoding is strictly longer |
| UriComponent.DecodeEncode | script.js:30 | decoding `encodeURIComponent(s)` gives back s |
| UriComponent.EncodeInjective | script.js:30 | two strings with the same encoding are equal |
| AvatarUrls.StripSchemeOnce | script.js:29 | exactly one leading `https://` or `http://` is removed; a string with neither is left alone |
| AvatarUrls.ParamValueEncode | script.js:30 | an encoded value followed by `&` reads back as itself as the parameter after its prefix |
| AvatarUrls.ProxifySpec | script.js:28-31 | a proxied URL has the proxy prefix and ends with the resize options, and the proxy reads back the original address minus its scheme |
| AvatarUrls.ProxifyInjective | script.js:28-31 | two addresses share a proxied URL only when they agree once their scheme is removed |
| AvatarUrls.Bust | script.js:82 | the token is appended with `&` when the address already has a `?`, and with `?` otherwise; the address is a prefix of the result |
| AvatarUrls.PushWithProxies | script.js:88-89 | the loop builds the list in which each original at 2k is followed by its proxied form at 2k+1 |
| AvatarUrls.AvatarSources | script.js:80-91 | six candidates: the busted unavatar, twivatar and twitter addresses of the stripped, trimmed, lower-cased handle, each followed by its proxied form |
| AvatarUrls.AvatarSourceListLayout | script.js:83-89 | the candidate list is unavatar, proxied unavatar, twivatar, proxied twivatar, twitter, proxied twitter |
| AvatarUrls.FallbackLowTarget | script.js:116-117 | the proxy fetches the 64-pixel unavatar address of the lower-cased handle, without its scheme |
| AvatarUrls.QrSrcSpec | script.js:154-157 | the QR service reads back `https://x.com/<handle>` as its `data` parameter, whatever the handle holds, and the address ends with `&t=` and the clock reading |
| Seat.TwoDigitsSpec | script.js:40-42 | a number from 1 to 99 is padded to exactly two digits that denote it |
| Seat.SeatLabelLayout | script.js:43 | the label is 26 characters: the fixed words and separators around three two-character fields |
| Seat.RandomSeatSpec | script.js:39-44 | each field is two digits denoting the draw plus one, so the gate is 1..25, the row 1..20 and the seat 1..50 |
| Seat.RandomSeatInjective | script.js:39-44 | different draws give different labels |
| Handle.AcceptPadded | script.js:148-149 | whitespace, at most one `@`, a valid handle and whitespace is accepted as that handle |
| Handle.AcceptedDecomposes | script.js:148-149 | every accepted input has exactly that shape |
| Handle.RetryHandle | script.js:170-171 | the retry gives up exactly when the label is empty or just `@`; otherwise a leading `@` is removed and the rest is the handle, and a label without one is the handle itself |
| Handle.LabelRoundTrip | script.js:170-171 | reading the `@handle` label back gives the handle that was accepted |
| Handle.ValidHandleIsPlain | script.js:149 | a valid handle needs no escaping, survives the strip and trim, and lower-cases to a valid handle without `?` |
| Handle.ValidHandleLookups | script.js:54-70 | for a valid handle the legacy lookup asks for the handle verbatim and the unavatar lookup for the lower-cased handle |
| Handle.ValidHandleSources | script.js:80-87 | for a valid handle the three originals are the concrete unavatar, twivatar and twitter addresses with the token after `&`, `?` and `&` |
| Handle.ValidHandleQr | script.js:157 | for a valid handle the QR address carries the handle verbatim after the encoded profile prefix |
| Avatar.PickAvatarPairSpec | script.js:108-122 | the legacy pair wins, then the unavatar pair; otherwise the low image is the 64-pixel fallback and the high image is the proxied winner of the first race, else of the second (token clock + 1), else the low image |
| Avatar.PickAvatarPairProxied | script.js:108-122 | both images of every pair start with the proxy prefix and are never empty |
| Avatar.PairAddresses | script.js:108-122 | every pair is two proxied addresses |
| Avatar.LegacyPairTargets | script.js:59-63 | the proxy fetches the thumbnail address, and for the high image that address with `_normal` replaced |
| Avatar.LegacyPairDistinct | script.js:62 | the legacy high image differs from the low one exactly when the thumbnail address contains `_normal` |
| Avatar.FallbackTargets | script.js:115-121 | in the fallback case the proxy fetches the 64-pixel unavatar address and the raced candidate |
| Avatar.RacedProxyProxiedAgain | script.js:118-120 | a race won by a proxied candidate yields that proxied address proxied again |
| Avatar.ShownSrcSpec | script.js:132-142 | something is always shown; it is the low image, the high image or the placeholder; it changes from the first image only when the high image loads |
| Avatar.ResolvedPairShown | script.js:132-142 | for a resolved pair the placeholder is never used: the low image, or the high one when it differs and loads |
| Avatar.UnavatarPairNoSwap | script.js:74 | an unavatar pair never swaps, since both images are the same |
| IdCard.CardPage.constructor | script.js:146-173 | a page before any submit: the label holds its initial text, nothing is shown and downloading is disabled |
| IdCard.CardPage.LoadAvatar | script.js:124-143 | hides the fallback, sets the profile image to the image `loadAvatar` settles on, and leaves the other fields alone |
| IdCard.CardPage.Render | script.js:151-165 | writes the `@handle` label, the seat label and the QR address, shows the card, loads the avatar and enables downloading |
| IdCard.CardPage.Submit | script.js:146-166 | a rejected input leaves the page unchanged; an accepted one renders the card for the accepted handle |
| IdCard.CardPage.Retry | script.js:168-173 | the retried handle is the label read back; nothing changes when it is empty, and otherwise only the avatar is reloaded |
| IdCard.SubmitThenRetry | script.js:146-173 | after an accepted submit a retry reloads the avatar of exactly the accepted handle; after a rejected one it reads the label's earlier text |

## Left out

- Network I/O: `fetch`, its status check and `r.json()` are left out. Each lookup's answer is an input.
- Lookup failures: a lookup that fails, answers non-2xx, throws, or lacks the field is `None`, the same as a `null` return. An empty address is also treated as missing, because it is falsy in the script.
- Non-string JSON values: a `profile_image_url` or `url` that is not a string is not modelled. On the legacy path, `.replace` would throw and the lookup would return `null`.
- `raceImages` and `waitForImage`: the timers and image events are not modelled. A race outcome is a candidate index, or `None` for the timeout. The QR image's settling is the point where `Render` enables downloading.
- Asynchrony: the handlers run to completion one after another. The submit handler does not await `loadAvatar`, and two overlapping `loadAvatar` calls could interleave; neither is modelled.
- Placeholder markup: the SVG text of `LOCAL_PLACEHOLDER` is an uninterpreted constant. Only its `data:image/svg+xml;utf8,` prefix and encoding are modelled.
- Input focus: the rejected submit's `handleInput.focus()` moves focus only and changes no modelled state.
- Attribute writes: `setAttribute("fetchpriority")`, `crossOrigin` and `referrerPolicy` change no modelled state and are left out.
- Ribbon and download: `setRibbonWidthToProfile` (layout measurement), the resize listener and the download handler (`html2canvas`, JPEG export) are left out as DOM and canvas work.
- Math.random and Date.now: these are parameters. `RandomSeat` requires the draws to be in range, as `Math.floor(Math.random() * n)` guarantees.
- JsString.ReplaceFirst: copies the replacement literally and does not expand `$&`, `$$`, `` $` `` or `$'` as `String.prototype.replace` does. The only replacement in the script, `_400x400`, contains no `$`.
- JsString.NatToString: gives plain digits for every n. `String(n)` switches to exponent form from 10^21, so the model assumes the clock readings and seat numbers stay below that, as `Date.now()` does.
- JsString.ToLower: only ASCII letters are lowered. Only validated ASCII handles reach it on the paths that matter.
- UriComponent.Encode: a lone surrogate, for which `encodeURIComponent` throws `URIError`, cannot be represented, because Dafny characters are Unicode scalar values.
- Handle.ValidHandleQr: states the QR address with `Encode("https://x.com/")` rather than the literal `https%3A%2F%2Fx.com%2F`.
