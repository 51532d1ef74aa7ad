/** The card page as the handlers leave it: the submit handler renders the
    card for an accepted handle, `loadAvatar` sets the profile image, and the
    retry handler reloads the avatar for the handle read back from the label.
    Element lookups, class toggles and event wiring become fields and
    methods; the awaited network results are the `Network` inputs. */
module IdCard {
  import opened Wrappers
  import opened JsString
  import opened Handle
  import opened Seat
  import opened AvatarUrls
  import opened Avatar

  class CardPage {
    /** `handle-display`'s text. */
    var handleLabel: string
    /** `seat-number`'s text. */
    var seatLabel: string
    /** `qr-code`'s `src`. */
    var qrSrc: string
    /** `profile-img`'s `src`. */
    var avatarSrc: string
    /** Whether `profile-fallback` carries `d-none`. */
    var fallbackHidden: bool
    /** Whether the form page is hidden and the card page shown. */
    var showingCard: bool
    /** Whether the download button is enabled. */
    var downloadEnabled: bool

    /** A page whose handle label holds `initialLabel` before any submit. */
    constructor (initialLabel: string)
      ensures handleLabel == initialLabel && seatLabel == "" && qrSrc == "" && avatarSrc == ""
      ensures !fallbackHidden && !showingCard && !downloadEnabled
    {
      handleLabel, seatLabel, qrSrc, avatarSrc := initialLabel, "", "", "";
      fallbackHidden, showingCard, downloadEnabled := false, false, false;
    }

    /** `loadAvatar(handle)`: hides the fallback, shows the low image or the
        placeholder, and swaps to the high image when it differs and loads. */
    method LoadAvatar(handle: string, net: Network)
      requires net.WellFormed()
      modifies this
      ensures fallbackHidden
      ensures avatarSrc == ShownSrc(PickAvatarPair(handle, net), net.highLoads)
      ensures handleLabel == old(handleLabel) && seatLabel == old(seatLabel) && qrSrc == old(qrSrc)
      ensures showingCard == old(showingCard) && downloadEnabled == old(downloadEnabled)
    {
      fallbackHidden := true;
      var pair := PickAvatarPair(handle, net);
      avatarSrc := if pair.low != "" then pair.low else LocalPlaceholder;
      if pair.high != "" && pair.high != pair.low && net.highLoads {
        avatarSrc := pair.high;
      }
    }

    /** Rendering an accepted handle: the `@handle` label, the seat label
        and the QR address are written, the card is shown, the avatar loads,
        and the download button is enabled once the QR image has settled. */
    method Render(handle: string, gateDraw: nat, rowDraw: nat, seatDraw: nat, now: nat, net: Network)
      requires gateDraw < 25 && rowDraw < 20 && seatDraw < 50
      requires net.WellFormed()
      modifies this
      ensures handleLabel == Label(handle)
      ensures seatLabel == RandomSeat(gateDraw, rowDraw, seatDraw)
      ensures qrSrc == QrSrc(handle, now)
      ensures showingCard && downloadEnabled && fallbackHidden
      ensures avatarSrc == ShownSrc(PickAvatarPair(handle, net), net.highLoads)
    {
      handleLabel := Label(handle);
      seatLabel := RandomSeat(gateDraw, rowDraw, seatDraw);
      qrSrc := QrSrc(handle, now);
      showingCard := true;
      LoadAvatar(handle, net);
      downloadEnabled := true;
    }

    /** The submit handler: a rejected input changes nothing, an accepted
        one is rendered. */
    method Submit(input: string, gateDraw: nat, rowDraw: nat, seatDraw: nat, now: nat, net: Network)
      requires gateDraw < 25 && rowDraw < 20 && seatDraw < 50
      requires net.WellFormed()
      modifies this
      ensures AcceptHandle(input).None? ==> unchanged(this)
      ensures AcceptHandle(input).Some? ==>
        var h := AcceptHandle(input).value;
        && handleLabel == Label(h)
        && seatLabel == RandomSeat(gateDraw, rowDraw, seatDraw)
        && qrSrc == QrSrc(h, now)
        && showingCard && downloadEnabled && fallbackHidden
        && avatarSrc == ShownSrc(PickAvatarPair(h, net), net.highLoads)
    {
      var accepted := AcceptHandle(input);
      if accepted.Some? {
        Render(accepted.value, gateDraw, rowDraw, seatDraw, now, net);
      }
    }

    /** The retry handler: reads the handle back from the label and, unless
        nothing is left, reloads the avatar; nothing else changes. */
    method Retry(net: Network) returns (retried: Option<string>)
      requires net.WellFormed()
      modifies this
      ensures retried == RetryHandle(old(handleLabel))
      ensures retried.None? ==> unchanged(this)
      ensures retried.Some? ==>
        && fallbackHidden
        && avatarSrc == ShownSrc(PickAvatarPair(retried.value, net), net.highLoads)
        && handleLabel == old(handleLabel) && seatLabel == old(seatLabel) && qrSrc == old(qrSrc)
        && showingCard == old(showingCard) && downloadEnabled == old(downloadEnabled)
    {
      var h := StripAt(handleLabel);
      if h == "" {
        return None;
      }
      retried := Some(h);
      LoadAvatar(h, net);
    }
  }

  /** A fresh page, a submit and a retry: after an accepted submit the retry
      reloads the avatar of exactly the handle that was accepted; after a
      rejected one it reads whatever the label held before. */
  method SubmitThenRetry(initialLabel: string, input: string, gateDraw: nat, rowDraw: nat, seatDraw: nat,
                         now: nat, first: Network, second: Network)
    returns (retried: Option<string>, shown: string)
    requires gateDraw < 25 && rowDraw < 20 && seatDraw < 50
    requires first.WellFormed() && second.WellFormed()
    ensures AcceptHandle(input).Some? ==> retried == AcceptHandle(input)
    ensures AcceptHandle(input).None? ==> retried == RetryHandle(initialLabel)
    ensures retried.Some? ==> shown == ShownSrc(PickAvatarPair(retried.value, second), second.highLoads)
    ensures retried.None? ==> shown == ""
  {
    var page := new CardPage(initialLabel);
    page.Submit(input, gateDraw, rowDraw, seatDraw, now, first);
    retried := page.Retry(second);
    if AcceptHandle(input).Some? {
      LabelRoundTrip(input);
    }
    shown := page.avatarSrc;
  }
}
