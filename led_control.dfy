/**
 * The LED state: the global flag `LED_ON` with its setter and getter, and
 * the `LedControl` instance that switches the flag and drives the output pin
 * from it.
 *
 * The global is one `LedFlag` object shared by reference; the pin is its
 * output level, high or low.
 */
module LedControl {

  /** The global `LED_ON` flag, off at start-up. */
  class LedFlag {
    var on: bool

    constructor ()
      ensures !on
    {
      on := false;
    }

    /** `set_led_state`: the flag becomes `state`. */
    method SetLedState(state: bool)
      modifies this
      ensures on == state
    {
      on := state;
    }

    /** `get_led_state`: the flag, unchanged. */
    method GetLedState() returns (state: bool)
      ensures state == on
    {
      state := on;
    }
  }

  /** `LedControl`: the output pin, switched through the global flag. */
  class LedControl {
    const flag: LedFlag
    var pinHigh: bool

    /** `new`: take ownership of the pin, at whatever level it is. */
    constructor (flag: LedFlag, pinHigh: bool)
      ensures this.flag == flag && this.pinHigh == pinHigh
    {
      this.flag := flag;
      this.pinHigh := pinHigh;
    }

    /** `set_on`: the flag is set; the pin waits for `update_hw`. */
    method SetOn()
      modifies flag
      ensures flag.on && pinHigh == old(pinHigh)
    {
      flag.SetLedState(true);
    }

    /** `set_off`: the flag is cleared; the pin waits for `update_hw`. */
    method SetOff()
      modifies flag
      ensures !flag.on && pinHigh == old(pinHigh)
    {
      flag.SetLedState(false);
    }

    /** `is_on`: the flag, unchanged. */
    method IsOn() returns (on: bool)
      ensures on == flag.on
    {
      on := flag.GetLedState();
    }

    /** `update_hw`: drive the pin high when the flag is set and low otherwise. */
    method UpdateHw()
      modifies this
      ensures pinHigh == flag.on && unchanged(flag)
    {
      if flag.on {
        pinHigh := true;
      } else {
        pinHigh := false;
      }
    }
  }

  /** The flag reads back what was last written, through either interface. */
  method SetThenGet(led: LedControl, state: bool) returns (got: bool, viaInstance: bool)
    modifies led.flag
    ensures got == state && viaInstance == state && led.flag.on == state
  {
    led.flag.SetLedState(state);
    got := led.flag.GetLedState();
    viaInstance := led.IsOn();
  }

  /** Switching on and updating the hardware leaves the pin high; switching off leaves it low. */
  method SwitchAndUpdate(led: LedControl, on: bool) returns (pinHigh: bool)
    modifies led, led.flag
    ensures pinHigh == on && led.pinHigh == on && led.flag.on == on
  {
    if on {
      led.SetOn();
    } else {
      led.SetOff();
    }
    led.UpdateHw();
    pinHigh := led.pinHigh;
  }
}
