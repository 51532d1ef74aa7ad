/** Handle intake in the submit handler, the `@handle` label it writes and the
    retry handler that reads the handle back from that label. */
module Handle {
  import opened Wrappers
  import opened JsString
  import UriComponent
  import opened AvatarUrls

  /** `[A-Za-z0-9_]`. */
  predicate IsHandleChar(c: char) {
    ('A' <= c <= 'Z') || ('a' <= c <= 'z') || ('0' <= c <= '9') || c == '_'
  }

  /** `/^[A-Za-z0-9_]{1,15}$/.test(h)`. */
  predicate IsValidHandle(h: string) {
    1 <= |h| <= 15 && forall i :: 0 <= i < |h| ==> IsHandleChar(h[i])
  }

  /** `(value || "").trim().replace(/^@/, "")`. */
  function NormalizeInput(input: string): string {
    StripAt(Trim(input))
  }

  /** The submit handler's decision: the handle to render, or None when the
      form refocuses the input and renders nothing. */
  function AcceptHandle(input: string): Option<string> {
    var h := NormalizeInput(input);
    if IsValidHandle(h) then Some(h) else None
  }

  /** Any input that is whitespace, at most one `@`, a valid handle and
      whitespace is accepted as that handle. */
  lemma AcceptPadded(w1: string, at: string, h: string, w2: string)
    requires AllWhitespace(w1) && AllWhitespace(w2)
    requires at == "" || at == "@"
    requires IsValidHandle(h)
    ensures AcceptHandle(w1 + at + h + w2) == Some(h)
  {
    AtHandle(at, h);
    ConcatAssoc(w1, at, h);
    TrimOfPadded(w1, at + h, w2);
  }

  /** A valid handle with at most one `@` in front has no whitespace at
      either end, and stripping the `@` gives the handle. */
  lemma AtHandle(at: string, h: string)
    requires at == "" || at == "@"
    requires IsValidHandle(h)
    ensures Unpadded(at + h) && StripAt(at + h) == h
  {
    var m := at + h;
    assert m[|m| - 1] == h[|h| - 1];
    assert IsHandleChar(h[0]) && IsHandleChar(h[|h| - 1]);
    if at == "" {
      assert m == h;
    } else {
      assert m == "@" + h;
    }
  }

  /** Conversely, an accepted input is exactly of that shape: whitespace, at
      most one `@`, the handle, whitespace. */
  lemma AcceptedDecomposes(input: string, h: string) returns (w1: string, at: string, w2: string)
    requires AcceptHandle(input) == Some(h)
    ensures AllWhitespace(w1) && AllWhitespace(w2) && (at == "" || at == "@")
    ensures IsValidHandle(h)
    ensures input == w1 + at + h + w2
  {
    w1, w2 := TrimDecomposes(input);
    at := StripAtSplit(Trim(input));
    ConcatAssoc(w1, at, h);
  }

  /** The text written to the handle label. */
  function Label(h: string): string {
    "@" + h
  }

  /** The retry handler: drops one leading `@` from the label text and gives
      up when nothing is left. */
  function RetryHandle(text: string): (r: Option<string>)
    ensures r.None? <==> text == "" || text == "@"
    ensures r.Some? ==> if text[0] == '@' then text == "@" + r.value else text == r.value
  {
    var h := StripAt(text);
    if h == [] then None else Some(h)
  }

  /** Reading the label back on retry gives exactly the handle that was
      rendered. */
  lemma LabelRoundTrip(input: string)
    requires AcceptHandle(input).Some?
    ensures RetryHandle(Label(AcceptHandle(input).value)) == AcceptHandle(input)
  {
    StripAtOnce(AcceptHandle(input).value);
  }

  /** A valid handle contains no `@`, no whitespace and nothing
      `encodeURIComponent` escapes, and it is its own trimmed, `@`-stripped
      form; so every later step sees it as it was typed, lower-cased where the
      script lower-cases it. */
  lemma ValidHandleIsPlain(h: string)
    requires IsValidHandle(h)
    ensures UriComponent.Encode(h) == h
    ensures Trim(StripAt(h)) == h
    ensures AvatarUser(h) == ToLower(h) && IsValidHandle(ToLower(h))
    ensures '?' !in h && '?' !in ToLower(h)
  {
    ValidHandleEncodes(h);
    ValidHandleTrimmed(h);
    LowerValidHandle(h);
  }

  lemma ValidHandleEncodes(h: string)
    requires IsValidHandle(h)
    ensures UriComponent.Encode(h) == h && '?' !in h
  {
    forall c | c in h ensures UriComponent.IsUnescaped(c) && c != '?' {
      var i :| 0 <= i < |h| && h[i] == c;
      assert IsHandleChar(h[i]);
    }
    UriComponent.EncodeFixedPoint(h);
  }

  lemma ValidHandleTrimmed(h: string)
    requires IsValidHandle(h)
    ensures Trim(StripAt(h)) == h
  {
    assert IsHandleChar(h[0]) && IsHandleChar(h[|h| - 1]);
    assert StripAt(h) == h;
    assert [] + h + [] == h;
    TrimOfPadded([], h, []);
  }

  lemma LowerHandleChar(c: char)
    requires IsHandleChar(c)
    ensures IsHandleChar(LowerChar(c)) && LowerChar(c) != '?'
  {
  }

  lemma LowerValidHandle(h: string)
    requires IsValidHandle(h)
    ensures IsValidHandle(ToLower(h)) && '?' !in ToLower(h)
  {
    var u := ToLower(h);
    forall i | 0 <= i < |u| ensures IsHandleChar(u[i]) && u[i] != '?' {
      LowerHandleChar(h[i]);
    }
  }

  /** The two lookups request the handle itself, and the lower-cased handle. */
  lemma ValidHandleLookups(h: string)
    requires IsValidHandle(h)
    ensures LegacyLookupUrl(h)
      == "https://cdn.syndication.twimg.com/widgets/followbutton/info.json?screen_names=" + h
    ensures UnavatarLookupUrl(h) == "https://unavatar.io/" + ToLower(h) + ".json"
  {
    ValidHandleIsPlain(h);
    ValidHandleIsPlain(ToLower(h));
  }

  /** For a valid handle the three originals are these addresses: the
      unavatar and twitter ones already have a query, so their token follows
      `&`; the twivatar one gets a query of its own. */
  lemma ValidHandleSources(h: string, token: string)
    requires IsValidHandle(h)
    ensures var s := AvatarSourceList(h, token); var u := ToLower(h);
      && |s| == 6
      && s[0] == "https://unavatar.io/twitter/" + u + "?fallback=false&t=" + token
      && s[2] == "https://twivatar.glitch.me/" + u + "?t=" + token
      && s[4] == "https://twitter.com/" + u + "/profile_image?size=original&t=" + token
  {
    ValidHandleIsPlain(h);
    var u := ToLower(h);
    var o := Originals(u, token);
    WithProxiesAt(o, 0);
    WithProxiesAt(o, 1);
    WithProxiesAt(o, 2);
    BustUnavatar(u, token);
    BustTwivatar(u, token);
    BustTwitter(u, token);
  }

  lemma BustUnavatar(u: string, token: string)
    ensures Bust(UnavatarUrl(u), token) == "https://unavatar.io/twitter/" + u + "?fallback=false&t=" + token
  {
    var un := UnavatarUrl(u);
    assert un[|un| - 15] == '?';
  }

  lemma BustTwitter(u: string, token: string)
    ensures Bust(TwitterUrl(u), token) == "https://twitter.com/" + u + "/profile_image?size=original&t=" + token
  {
    var tw := TwitterUrl(u);
    assert tw[|tw| - 14] == '?';
  }

  lemma BustTwivatar(u: string, token: string)
    requires '?' !in u
    ensures Bust(TwivatarUrl(u), token) == "https://twivatar.glitch.me/" + u + "?t=" + token
  {
    var tv := TwivatarUrl(u);
    assert '?' !in tv by {
      assert '?' !in "https://twivatar.glitch.me/";
    }
  }

  /** For a valid handle the QR address carries the handle verbatim after the
      encoded profile prefix: nothing in it needs escaping. */
  lemma ValidHandleQr(h: string, now: nat)
    requires IsValidHandle(h)
    ensures QrSrc(h, now)
      == QrPrefix + UriComponent.Encode(ProfileBase) + h + "&t=" + NatToString(now)
  {
    ValidHandleEncodes(h);
    UriComponent.EncodeAppend(ProfileBase, h);
    ConcatAssoc(QrPrefix, UriComponent.Encode(ProfileBase), h);
  }
}
