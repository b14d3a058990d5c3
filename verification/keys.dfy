/** Key sampling: `keyPressed` in main.c reads the button pin byte and drives the LED. */
module Keys {
  import opened Bytes

  /** NUM_KEYS: the number of physical buttons, hence the last valid key index. */
  const NumKeys: Byte := 2

  /** Bit masks of the button pins in PINB: button 1 on PB4, button 2 on PB3. */
  const Button1Mask: bv8 := 0x10
  const Button2Mask: bv8 := 0x08

  /** What one call of `keyPressed` decides: the key index it returns and the LED state it leaves. */
  datatype KeySample = KeySample(key: Byte, ledOn: bool)

  /** The decision `keyPressed` takes for the pin byte `pin`: button 1 wins over button 2. */
  function KeyDecision(pin: Byte): (r: KeySample)
    ensures r.key == 1 <==> AnySet(pin, Button1Mask)
    ensures r.key == 2 <==> !AnySet(pin, Button1Mask) && AnySet(pin, Button2Mask)
    ensures r.key == 0 <==> !AnySet(pin, Button1Mask) && !AnySet(pin, Button2Mask)
    ensures r.key <= NumKeys
    ensures r.ledOn <==> r.key != 0
  {
    if AnySet(pin, Button1Mask) then KeySample(1, true)
    else if AnySet(pin, Button2Mask) then KeySample(2, true)
    else KeySample(0, false)
  }

  /** Only the two button bits of the pin byte matter (PB0 to PB2 and PB5 are the LED, USB and reset). */
  lemma OnlyButtonBitsMatter(pin: Byte, other: Byte)
    requires (pin as bv8) & 0x18 == (other as bv8) & 0x18
    ensures KeyDecision(pin) == KeyDecision(other)
  {
    assert (pin as bv8) & 0x10 == ((pin as bv8) & 0x18) & 0x10;
    assert (other as bv8) & 0x10 == ((other as bv8) & 0x18) & 0x10;
    assert (pin as bv8) & 0x08 == ((pin as bv8) & 0x18) & 0x08;
    assert (other as bv8) & 0x08 == ((other as bv8) & 0x18) & 0x08;
  }
}
