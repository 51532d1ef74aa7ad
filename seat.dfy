/** `randomSeat`: a gate, row and seat label. The three `Math.random()` draws
    are parameters, already scaled and floored: `gateDraw` is
    `Math.floor(Math.random() * 25)`, and so on. */
module Seat {
  import opened JsString

  /** `String(n).padStart(2, "0")`. */
  function TwoDigits(n: nat): string {
    PadStart(NatToString(n), 2, '0')
  }

  /** A number from 1 to 99 is written as exactly two digits that denote it. */
  lemma TwoDigitsSpec(n: nat)
    requires 1 <= n <= 99
    ensures |TwoDigits(n)| == 2 && AllDigits(TwoDigits(n))
    ensures DecimalValue(TwoDigits(n)) == n
  {
    var d := NatToString(n);
    var t := TwoDigits(n);
    NatToStringValue(n);
    if n < 10 {
      assert t == ['0'] + d;
      assert t[..1] == ['0'];
      assert DecimalValue(t[..1]) == 0 by {
        assert t[..1][..0] == [];
      }
      assert t[1] == d[0];
      assert d[..0] == [];
    } else {
      assert |NatToString(n / 10)| == 1;
    }
  }

  function SeatLabel(g: string, r: string, s: string): string {
    "Gate " + g + " \U{00B7} Row " + r + " \U{00B7} Seat " + s
  }

  lemma SeatLabelLayout(g: string, r: string, s: string)
    requires |g| == 2 && |r| == 2 && |s| == 2
    ensures var text := SeatLabel(g, r, s);
      && |text| == 26 && text[..5] == "Gate " && text[7..14] == " \U{00B7} Row "
      && text[16..24] == " \U{00B7} Seat "
      && text[5..7] == g && text[14..16] == r && text[24..26] == s
  {
  }

  function RandomSeat(gateDraw: nat, rowDraw: nat, seatDraw: nat): string
    requires gateDraw < 25 && rowDraw < 20 && seatDraw < 50
  {
    SeatLabel(TwoDigits(gateDraw + 1), TwoDigits(rowDraw + 1), TwoDigits(seatDraw + 1))
  }

  /** The text is `Gate GG · Row RR · Seat SS`: 26 characters, with each
      field two decimal digits that denote the draw plus one, so gate is in
      1..25, row in 1..20 and seat in 1..50. */
  lemma RandomSeatSpec(gateDraw: nat, rowDraw: nat, seatDraw: nat)
    requires gateDraw < 25 && rowDraw < 20 && seatDraw < 50
    ensures var text := RandomSeat(gateDraw, rowDraw, seatDraw);
      && |text| == 26
      && text[..5] == "Gate "
      && text[7..14] == " \U{00B7} Row "
      && text[16..24] == " \U{00B7} Seat "
      && AllDigits(text[5..7]) && DecimalValue(text[5..7]) == gateDraw + 1
      && AllDigits(text[14..16]) && DecimalValue(text[14..16]) == rowDraw + 1
      && AllDigits(text[24..26]) && DecimalValue(text[24..26]) == seatDraw + 1
  {
    var g, r, s := TwoDigits(gateDraw + 1), TwoDigits(rowDraw + 1), TwoDigits(seatDraw + 1);
    TwoDigitsSpec(gateDraw + 1);
    TwoDigitsSpec(rowDraw + 1);
    TwoDigitsSpec(seatDraw + 1);
    SeatLabelLayout(g, r, s);
  }

  /** Different draws give different labels. */
  lemma RandomSeatInjective(g1: nat, r1: nat, s1: nat, g2: nat, r2: nat, s2: nat)
    requires g1 < 25 && r1 < 20 && s1 < 50
    requires g2 < 25 && r2 < 20 && s2 < 50
    requires RandomSeat(g1, r1, s1) == RandomSeat(g2, r2, s2)
    ensures g1 == g2 && r1 == r2 && s1 == s2
  {
    RandomSeatSpec(g1, r1, s1);
    RandomSeatSpec(g2, r2, s2);
  }
}
