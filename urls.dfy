/** The URLs the card script builds: the images.weserv.nl proxy wrapper, the
    cache-busting query token, the six avatar candidates, the two lookup
    endpoints and the QR-code image. */
module AvatarUrls {
  import opened Wrappers
  import opened JsString
  import UriComponent

  const ProxyPrefix: string := "https://images.weserv.nl/?url="
  /** The resize options after the `url` parameter. */
  const ProxyOptions: string := "w=512&h=512&fit=cover&il&af"
  const ProxySuffix: string := "&" + ProxyOptions

  predicate StartsWith(s: string, p: string) {
    |p| <= |s| && s[..|p|] == p
  }

  /** `raw.replace(/^https?:\/\//, "")`: one leading scheme, at most. */
  function StripScheme(raw: string): string {
    if StartsWith(raw, "https://") then raw[8..]
    else if StartsWith(raw, "http://") then raw[7..]
    else raw
  }

  /** Exactly one leading `https://` or `http://` goes, whatever follows it;
      a string with neither prefix is left alone. */
  lemma StripSchemeOnce(r: string)
    ensures StripScheme("https://" + r) == r
    ensures StripScheme("http://" + r) == r
    ensures !StartsWith(r, "https://") && !StartsWith(r, "http://") ==> StripScheme(r) == r
  {
    assert ("https://" + r)[..8] == "https://";
    var h := "http://" + r;
    assert h[..7] == "http://";
    assert |h| >= 8 ==> h[..8][4] == ':';
  }

  /** `proxify(raw)`. */
  function Proxify(raw: string): string {
    ProxyPrefix + UriComponent.Encode(StripScheme(raw)) + ProxySuffix
  }

  /** The characters of `s` before the first `c` (all of `s` if there is none). */
  function TakeUntil(s: string, c: char): (r: string)
    ensures |r| <= |s| && r == s[..|r|] && c !in r
  {
    if s == [] || s[0] == c then [] else [s[0]] + TakeUntil(s[1..], c)
  }

  lemma {:induction false} TakeUntilAppend(a: string, c: char, b: string)
    requires c !in a
    ensures TakeUntil(a + [c] + b, c) == a
  {
    if a != [] {
      assert (a + [c] + b)[1..] == a[1..] + [c] + b;
      TakeUntilAppend(a[1..], c, b);
    }
  }

  /** What a service reads as the parameter that `pre` ends with: the text
      after `pre` up to the first `&`, URI-decoded. */
  function ParamValue(u: string, pre: string): Option<string> {
    if StartsWith(u, pre) then UriComponent.Decode(TakeUntil(u[|pre|..], '&'))
    else None
  }

  /** An encoded value followed by `&` reads back as itself: encoding never
      produces an `&` that could cut it short. */
  lemma ParamValueEncode(pre: string, x: string, rest: string)
    ensures StartsWith(pre + UriComponent.Encode(x) + "&" + rest, pre)
    ensures ParamValue(pre + UriComponent.Encode(x) + "&" + rest, pre) == Some(x)
  {
    var e := UriComponent.Encode(x);
    var u := pre + e + "&" + rest;
    assert u[..|pre|] == pre;
    assert u[|pre|..] == e + ['&'] + rest;
    assert !UriComponent.IsEncodedChar('&');
    TakeUntilAppend(e, '&', rest);
    UriComponent.DecodeEncode(x);
  }

  /** What the proxy reads as its `url` parameter. */
  function ProxiedTarget(u: string): Option<string> {
    ParamValue(u, ProxyPrefix)
  }

  /** A proxied URL starts with the proxy prefix and ends with the fixed
      resize options, and the proxy reads back the original address with its
      scheme removed: no `&` of the address can cut the parameter short. */
  lemma ProxifySpec(raw: string)
    ensures StartsWith(Proxify(raw), ProxyPrefix)
    ensures |Proxify(raw)| >= |ProxySuffix|
      && Proxify(raw)[|Proxify(raw)| - |ProxySuffix|..] == ProxySuffix
    ensures ProxiedTarget(Proxify(raw)) == Some(StripScheme(raw))
  {
    var e := UriComponent.Encode(StripScheme(raw));
    var p := Proxify(raw);
    ParamValueEncode(ProxyPrefix, StripScheme(raw), ProxyOptions);
    ConcatAssoc(ProxyPrefix + e, "&", ProxyOptions);
    assert p[|p| - |ProxySuffix|..] == ProxySuffix;
  }

  /** Two raw addresses give the same proxied URL only when they agree once
      their scheme is stripped. */
  lemma ProxifyInjective(a: string, b: string)
    requires Proxify(a) == Proxify(b)
    ensures StripScheme(a) == StripScheme(b)
  {
    ProxifySpec(a);
    ProxifySpec(b);
  }

  /** `bust(url)` inside `avatarSources`: appends the `t` query parameter. */
  function Bust(url: string, token: string): (r: string)
    ensures StartsWith(r, url) && '?' in r
    ensures '?' in url ==> r == url + "&t=" + token
    ensures '?' !in url ==> r == url + "?t=" + token
  {
    var r := url + (if '?' in url then "&" else "?") + "t=" + token;
    assert r[..|url|] == url;
    assert r[|url|] in r;
    r
  }

  /** The handle as `avatarSources`, `pickAvatarPair` and the unavatar lookup
      use it: one leading `@` removed, then trimmed, then lower-cased. */
  function AvatarUser(handle: string): string {
    ToLower(Trim(StripAt(handle)))
  }

  function UnavatarUrl(u: string): string {
    "https://unavatar.io/twitter/" + u + "?fallback=false"
  }

  function TwivatarUrl(u: string): string {
    "https://twivatar.glitch.me/" + u
  }

  function TwitterUrl(u: string): string {
    "https://twitter.com/" + u + "/profile_image?size=original"
  }

  function Originals(u: string, token: string): seq<string> {
    [Bust(UnavatarUrl(u), token), Bust(TwivatarUrl(u), token), Bust(TwitterUrl(u), token)]
  }

  /** Each address followed by its proxied form. */
  function WithProxies(s: seq<string>): (r: seq<string>)
    ensures |r| == 2 * |s|
  {
    if s == [] then [] else WithProxies(s[..|s| - 1]) + [s[|s| - 1], Proxify(s[|s| - 1])]
  }

  lemma {:induction false} WithProxiesAt(s: seq<string>, k: nat)
    requires k < |s|
    ensures WithProxies(s)[2 * k] == s[k] && WithProxies(s)[2 * k + 1] == Proxify(s[k])
  {
    if k < |s| - 1 {
      WithProxiesAt(s[..|s| - 1], k);
    }
  }

  /** The candidate list `avatarSources` returns, as a value. */
  function AvatarSourceList(handle: string, token: string): seq<string> {
    WithProxies(Originals(AvatarUser(handle), token))
  }

  /** `avatarSources(handle, bustToken)`: pushes every busted original and its
      proxied form, in the order unavatar, twivatar, twitter. */
  method AvatarSources(handle: string, bustToken: string) returns (sources: seq<string>)
    ensures sources == AvatarSourceList(handle, bustToken)
    ensures |sources| == 6
    ensures sources[0] == Bust(UnavatarUrl(AvatarUser(handle)), bustToken)
    ensures sources[2] == Bust(TwivatarUrl(AvatarUser(handle)), bustToken)
    ensures sources[4] == Bust(TwitterUrl(AvatarUser(handle)), bustToken)
    ensures sources[1] == Proxify(sources[0]) && sources[3] == Proxify(sources[2])
    ensures sources[5] == Proxify(sources[4])
  {
    var originals := Originals(AvatarUser(handle), bustToken);
    sources := PushWithProxies(originals);
    AvatarSourceListLayout(handle, bustToken);
  }

  /** The `forEach` in `avatarSources`: pushes each address and then its
      proxied form. */
  method PushWithProxies(originals: seq<string>) returns (withProxies: seq<string>)
    ensures withProxies == WithProxies(originals)
    ensures forall k :: 0 <= k < |originals| ==>
      withProxies[2 * k] == originals[k] && withProxies[2 * k + 1] == Proxify(originals[k])
  {
    withProxies := [];
    var i := 0;
    while i < |originals|
      invariant 0 <= i <= |originals|
      invariant withProxies == WithProxies(originals[..i])
    {
      assert originals[..i + 1][..i] == originals[..i];
      withProxies := withProxies + [originals[i], Proxify(originals[i])];
      i := i + 1;
    }
    assert originals[..i] == originals;
    forall k | 0 <= k < |originals|
      ensures withProxies[2 * k] == originals[k] && withProxies[2 * k + 1] == Proxify(originals[k])
    {
      WithProxiesAt(originals, k);
    }
  }

  /** The six candidates: each busted original, followed by its proxied form. */
  lemma AvatarSourceListLayout(handle: string, token: string)
    ensures |AvatarSourceList(handle, token)| == 6
    ensures var s := AvatarSourceList(handle, token); var u := AvatarUser(handle);
      && s[0] == Bust(UnavatarUrl(u), token) && s[1] == Proxify(s[0])
      && s[2] == Bust(TwivatarUrl(u), token) && s[3] == Proxify(s[2])
      && s[4] == Bust(TwitterUrl(u), token) && s[5] == Proxify(s[4])
  {
    var o := Originals(AvatarUser(handle), token);
    WithProxiesAt(o, 0);
    WithProxiesAt(o, 1);
    WithProxiesAt(o, 2);
  }

  /** The address `fetchViaLegacyJSON` requests. */
  function LegacyLookupUrl(handle: string): string {
    "https://cdn.syndication.twimg.com/widgets/followbutton/info.json?screen_names="
      + UriComponent.Encode(Trim(StripAt(handle)))
  }

  /** The address `fetchViaUnavatarJSON` requests. */
  function UnavatarLookupUrl(handle: string): string {
    "https://unavatar.io/" + UriComponent.Encode(AvatarUser(handle)) + ".json"
  }

  /** The 64-pixel unavatar address behind the low-resolution fallback. */
  function FallbackUrl(u: string): string {
    "https://unavatar.io/twitter/" + u + "?fallback=false&size=64"
  }

  /** The low-resolution fallback: unavatar at size 64, proxied. */
  function FallbackLow(handle: string): string {
    Proxify(FallbackUrl(AvatarUser(handle)))
  }

  /** The proxy fetches the 64-pixel address without its scheme. */
  lemma FallbackLowTarget(handle: string)
    ensures ProxiedTarget(FallbackLow(handle))
      == Some("unavatar.io/twitter/" + AvatarUser(handle) + "?fallback=false&size=64")
  {
    var rest := "unavatar.io/twitter/" + AvatarUser(handle) + "?fallback=false&size=64";
    FallbackUrlScheme(AvatarUser(handle));
    StripSchemeOnce(rest);
    ProxifySpec(FallbackUrl(AvatarUser(handle)));
  }

  lemma FallbackUrlScheme(u: string)
    ensures FallbackUrl(u) == "https://" + ("unavatar.io/twitter/" + u + "?fallback=false&size=64")
  {
    assert "https://unavatar.io/twitter/" == "https://" + "unavatar.io/twitter/";
  }

  const QrPrefix: string := "https://api.qrserver.com/v1/create-qr-code/?size=240x240&data="
  const ProfileBase: string := "https://x.com/"

  /** The QR image address for a handle, with the clock reading `now` as the
      cache-busting `t` parameter. */
  function QrSrc(handle: string, now: nat): string {
    QrPrefix + UriComponent.Encode(ProfileBase + handle) + "&t=" + NatToString(now)
  }

  /** The QR code's `data` parameter, as the QR service reads it. */
  function QrData(u: string): Option<string> {
    ParamValue(u, QrPrefix)
  }

  /** The QR code encodes the profile address of the handle, whatever the
      handle contains, and the clock token comes after it. */
  lemma QrSrcSpec(handle: string, now: nat)
    ensures StartsWith(QrSrc(handle, now), QrPrefix)
    ensures QrData(QrSrc(handle, now)) == Some(ProfileBase + handle)
    ensures var q := QrSrc(handle, now); var t := NatToString(now);
      |q| > |t| + 3 && q[|q| - |t| - 3..] == "&t=" + t
  {
    QrSrcData(handle, now);
    QrSrcToken(QrPrefix + UriComponent.Encode(ProfileBase + handle), NatToString(now));
  }

  lemma QrSrcData(handle: string, now: nat)
    ensures StartsWith(QrSrc(handle, now), QrPrefix)
    ensures QrData(QrSrc(handle, now)) == Some(ProfileBase + handle)
  {
    QrSrcSplit(QrPrefix + UriComponent.Encode(ProfileBase + handle), NatToString(now));
    ParamValueEncode(QrPrefix, ProfileBase + handle, "t=" + NatToString(now));
  }

  lemma QrSrcToken(a: string, t: string)
    requires |a| > 0
    ensures var q := a + "&t=" + t; |q| > |t| + 3 && q[|q| - |t| - 3..] == "&t=" + t
  {
    var q := a + "&t=" + t;
    assert q == a + ("&t=" + t);
  }

  lemma QrSrcSplit(a: string, t: string)
    ensures a + "&t=" + t == a + "&" + ("t=" + t)
  {
    assert "&t=" == "&" + "t=";
  }
}
