/** Avatar resolution: `pickAvatarPair` chooses a low/high image pair from the
    two JSON lookups and, failing both, from two image races; `loadAvatar`
    shows the low image (or the placeholder) and swaps to the high one. The
    network, the timers and the clock are inputs here. */
module Avatar {
  import opened Wrappers
  import opened JsString
  import opened AvatarUrls
  import UriComponent

  /** The image shown first and the one swapped in when it loads. */
  datatype Pair = Pair(low: string, high: string)

  /** What the outside world answered during one avatar resolution. */
  datatype Network = Network(
    /** `data[0].profile_image_url` of the legacy lookup; None when the fetch
        failed, answered non-2xx, or the JSON has no such entry. */
    legacyImage: Option<string>,
    /** `data.url` of the unavatar lookup, under the same conditions. */
    unavatarImage: Option<string>,
    /** `Date.now()` before the first race, and the index of the candidate
        whose image loaded first, or None when the timeout fired first. */
    clock1: nat,
    race1: Option<nat>,
    /** The same for the second race, whose token is its clock plus one. */
    clock2: nat,
    race2: Option<nat>,
    /** Whether the high-resolution image loads in `loadAvatar`. */
    highLoads: bool)
  {
    /** A race can only be won by one of the six candidates it was given. */
    predicate WellFormed() {
      (race1.Some? ==> race1.value < 6) && (race2.Some? ==> race2.value < 6)
    }
  }

  /** The pair `fetchViaLegacyJSON` builds: the `_normal` thumbnail, and the
      same address with its first `_normal` turned into `_400x400`. An empty
      address is falsy in the script, so it gives no pair. */
  function LegacyPair(image: Option<string>): Option<Pair> {
    match image
    case Some(url) =>
      if url == "" then None
      else Some(Pair(Proxify(url), Proxify(ReplaceFirst(url, "_normal", "_400x400"))))
    case None => None
  }

  /** The pair `fetchViaUnavatarJSON` builds: one image for both. */
  function UnavatarPair(image: Option<string>): Option<Pair> {
    match image
    case Some(url) => if url == "" then None else Some(Pair(Proxify(url), Proxify(url)))
    case None => None
  }

  /** The address `raceImages` resolves with: a candidate, or None. */
  function RaceWinner(handle: string, clock: nat, race: Option<nat>): Option<string>
    requires race.Some? ==> race.value < 6
  {
    match race
    case Some(i) => Some(AvatarSourceList(handle, NatToString(clock))[i])
    case None => None
  }

  /** The raced address: the first race's winner, or else the second's. */
  function RacedHigh(handle: string, net: Network): Option<string>
    requires net.WellFormed()
  {
    match RaceWinner(handle, net.clock1, net.race1)
    case Some(w) => Some(w)
    case None => RaceWinner(handle, net.clock2 + 1, net.race2)
  }

  /** `pickAvatarPair(handle)`. */
  function PickAvatarPair(handle: string, net: Network): Pair
    requires net.WellFormed()
  {
    match LegacyPair(net.legacyImage)
    case Some(p) => p
    case None =>
      match UnavatarPair(net.unavatarImage)
      case Some(p) => p
      case None =>
        var low := FallbackLow(handle);
        match RacedHigh(handle, net)
        case Some(w) => Pair(low, Proxify(w))
        case None => Pair(low, low)
  }

  /** The legacy pair wins when there is one; else the unavatar pair; else
      the low image is the proxied 64-pixel unavatar address and the high one
      is the proxied winner of the first race, of the second race when the
      first timed out, or the low image when both timed out. */
  lemma PickAvatarPairSpec(handle: string, net: Network)
    requires net.WellFormed()
    ensures var p := PickAvatarPair(handle, net);
      && (LegacyPair(net.legacyImage).Some? ==> p == LegacyPair(net.legacyImage).value)
      && (LegacyPair(net.legacyImage).None? && UnavatarPair(net.unavatarImage).Some?
          ==> p == UnavatarPair(net.unavatarImage).value)
      && (LegacyPair(net.legacyImage).None? && UnavatarPair(net.unavatarImage).None? ==>
            && p.low == FallbackLow(handle)
            && (net.race1.Some? ==>
                  p.high == Proxify(AvatarSourceList(handle, NatToString(net.clock1))[net.race1.value]))
            && (net.race1.None? && net.race2.Some? ==>
                  p.high == Proxify(AvatarSourceList(handle, NatToString(net.clock2 + 1))[net.race2.value]))
            && (net.race1.None? && net.race2.None? ==> p.high == p.low))
  {
  }

  /** Both images of every pair go through the proxy, so the rasterised card
      can include them, and neither is ever empty. */
  lemma PickAvatarPairProxied(handle: string, net: Network)
    requires net.WellFormed()
    ensures var p := PickAvatarPair(handle, net);
      && StartsWith(p.low, ProxyPrefix) && StartsWith(p.high, ProxyPrefix)
      && p.low != "" && p.high != ""
  {
    var a, b := PairAddresses(handle, net);
    ProxifySpec(a);
    ProxifySpec(b);
  }

  /** Every pair is two proxied addresses. */
  lemma PairAddresses(handle: string, net: Network) returns (a: string, b: string)
    requires net.WellFormed()
    ensures PickAvatarPair(handle, net) == Pair(Proxify(a), Proxify(b))
  {
    if LegacyPair(net.legacyImage).Some? {
      a, b := net.legacyImage.value, ReplaceFirst(net.legacyImage.value, "_normal", "_400x400");
    } else if UnavatarPair(net.unavatarImage).Some? {
      a, b := net.unavatarImage.value, net.unavatarImage.value;
    } else {
      a := FallbackUrl(AvatarUser(handle));
      b := if RacedHigh(handle, net).Some? then RacedHigh(handle, net).value else a;
    }
  }

  /** When a race is won by one of the proxied candidates (odd index), the
      high image is that proxied address proxied once more: the proxy is
      asked to fetch its own URL. */
  lemma RacedProxyProxiedAgain(handle: string, net: Network, k: nat)
    requires net.WellFormed() && k < 3
    requires LegacyPair(net.legacyImage).None? && UnavatarPair(net.unavatarImage).None?
    requires net.race1 == Some(2 * k + 1)
    ensures var s := AvatarSourceList(handle, NatToString(net.clock1));
      PickAvatarPair(handle, net).high == Proxify(Proxify(s[2 * k]))
    ensures ProxiedTarget(PickAvatarPair(handle, net).high)
      == Some(StripScheme(Proxify(AvatarSourceList(handle, NatToString(net.clock1))[2 * k])))
  {
    var o := Originals(AvatarUser(handle), NatToString(net.clock1));
    var s := AvatarSourceList(handle, NatToString(net.clock1));
    PickAvatarPairSpec(handle, net);
    WithProxiesAt(o, k);
    ProxifySpec(s[2 * k + 1]);
  }

  /** What the proxy fetches for a legacy pair: the thumbnail address, and
      for the high image that address with `_normal` replaced, each without
      its scheme. */
  lemma LegacyPairTargets(url: string)
    requires url != ""
    ensures var p := LegacyPair(Some(url)).value;
      && ProxiedTarget(p.low) == Some(StripScheme(url))
      && ProxiedTarget(p.high) == Some(StripScheme(ReplaceFirst(url, "_normal", "_400x400")))
  {
    ProxifySpec(url);
    ProxifySpec(ReplaceFirst(url, "_normal", "_400x400"));
  }

  /** What the proxy fetches in the fallback case: the 64-pixel unavatar
      address for the low image, and the raced candidate for the high one. */
  lemma FallbackTargets(handle: string, net: Network)
    requires net.WellFormed()
    requires LegacyPair(net.legacyImage).None? && UnavatarPair(net.unavatarImage).None?
    ensures var p := PickAvatarPair(handle, net);
      && ProxiedTarget(p.low) == Some("unavatar.io/twitter/" + AvatarUser(handle) + "?fallback=false&size=64")
      && (RacedHigh(handle, net).Some? ==>
            ProxiedTarget(p.high) == Some(StripScheme(RacedHigh(handle, net).value)))
  {
    FallbackLowTarget(handle);
    if RacedHigh(handle, net).Some? {
      ProxifySpec(RacedHigh(handle, net).value);
    }
  }

  /** The least index of an occurrence, when there is one. */
  lemma FirstOccurrence(s: string, pat: string, i: nat) returns (first: nat)
    requires OccursAt(s, pat, i)
    ensures first <= i && OccursAt(s, pat, first)
    ensures forall j: nat :: j < first ==> !OccursAt(s, pat, j)
  {
    first := IndexOfFrom(s, pat, 0).value;
  }

  /** The legacy pair has a distinct high image exactly when the thumbnail
      address contains `_normal`: replacing it lengthens the address, and no
      stripped scheme can make up for that. */
  lemma LegacyPairDistinct(url: string)
    requires url != ""
    ensures var p := LegacyPair(Some(url)).value;
      p.high != p.low <==> exists i: nat :: OccursAt(url, "_normal", i)
  {
    if i: nat :| OccursAt(url, "_normal", i) {
      var first := FirstOccurrence(url, "_normal", i);
      var r := ReplaceFirst(url, "_normal", "_400x400");
      SpliceFacts(url, first, r);
      StripSchemeDiffers(url, r, first);
      ProxifyDistinct(url, r);
    }
  }

  /** Replacing the `_normal` at `first` lengthens the address by one and
      keeps everything before that `_`. */
  lemma SpliceFacts(url: string, first: nat, r: string)
    requires OccursAt(url, "_normal", first)
    requires r == url[..first] + "_400x400" + url[first + 7..]
    ensures |r| == |url| + 1 && first < |url| && url[first] == '_'
    ensures r[..first] == url[..first]
  {
    assert url[first..first + 7][0] == '_';
  }

  lemma ProxifyDistinct(a: string, b: string)
    requires StripScheme(a) != StripScheme(b)
    ensures Proxify(a) != Proxify(b)
  {
    ProxifySpec(a);
    ProxifySpec(b);
  }

  lemma StripSchemeLength(x: string)
    ensures |StripScheme(x)| == |x| - (if StartsWith(x, "https://") then 8
                                       else if StartsWith(x, "http://") then 7 else 0)
  {
  }

  /** An `_` at `first` is past the scheme `http://`. */
  lemma UnderscoreAfterScheme(url: string, first: nat)
    requires first < |url| && url[first] == '_'
    ensures StartsWith(url, "http://") ==> first >= 7
  {
    if StartsWith(url, "http://") {
      assert forall k :: 0 <= k < 7 ==> url[..7][k] != '_';
    }
  }

  /** An address one character longer, agreeing up to an `_` at `first`,
      strips to something else: the scheme could only make up the difference
      as `http://` against `https://`, and those differ at position 4. */
  lemma StripSchemeDiffers(url: string, r: string, first: nat)
    requires |r| == |url| + 1 && first < |url| && url[first] == '_'
    requires r[..first] == url[..first]
    ensures StripScheme(url) != StripScheme(r)
  {
    StripSchemeLength(url);
    StripSchemeLength(r);
    UnderscoreAfterScheme(url, first);
    if StartsWith(url, "http://") {
      assert r[4] == r[..first][4] == url[..first][4] == url[4];
    }
  }

  /** The inline SVG placeholder: a `data:` address whose markup is opaque. */
  const PlaceholderMarkup: string
  const LocalPlaceholder: string := "data:image/svg+xml;utf8," + UriComponent.Encode(PlaceholderMarkup)

  /** `low || LOCAL_PLACEHOLDER`: the image shown straight away. */
  function InitialSrc(p: Pair): string {
    if p.low != "" then p.low else LocalPlaceholder
  }

  /** `high && high !== low`: whether `loadAvatar` starts loading the high
      image. */
  predicate Upgrades(p: Pair) {
    p.high != "" && p.high != p.low
  }

  /** The image shown once `loadAvatar` has settled. */
  function ShownSrc(p: Pair, highLoads: bool): string {
    if Upgrades(p) && highLoads then p.high else InitialSrc(p)
  }

  /** Something is always shown: the low image unless the high one loaded
      and differs from it, and the placeholder only when there is no low
      image and no swap. */
  lemma ShownSrcSpec(p: Pair, highLoads: bool)
    ensures ShownSrc(p, highLoads) != ""
    ensures ShownSrc(p, highLoads) in {p.low, p.high, LocalPlaceholder}
    ensures ShownSrc(p, highLoads) != InitialSrc(p) ==> highLoads && ShownSrc(p, highLoads) == p.high
    ensures !(highLoads && p.high != "") && p.low != "" ==> ShownSrc(p, highLoads) == p.low
    ensures p.low == "" && !(highLoads && p.high != "") ==> ShownSrc(p, highLoads) == LocalPlaceholder
  {
    assert LocalPlaceholder[..5] == "data:";
  }

  /** A resolved pair never leaves the placeholder on screen: its low image
      is shown first, and the high image replaces it only when they differ and
      the high one loads. */
  lemma ResolvedPairShown(handle: string, net: Network)
    requires net.WellFormed()
    ensures var p := PickAvatarPair(handle, net);
      && InitialSrc(p) == p.low
      && ShownSrc(p, net.highLoads) == (if p.high != p.low && net.highLoads then p.high else p.low)
  {
    PickAvatarPairProxied(handle, net);
  }

  /** An unavatar pair is never swapped: both of its images are the same. */
  lemma UnavatarPairNoSwap(url: string, highLoads: bool)
    requires url != ""
    ensures !Upgrades(UnavatarPair(Some(url)).value)
    ensures ShownSrc(UnavatarPair(Some(url)).value, highLoads) == Proxify(url)
  {
    ProxifySpec(url);
  }
}
