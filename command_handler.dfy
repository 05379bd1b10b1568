/**
 * The command handler's `process_command`: the same commands as the server's
 * own copy, with the LED flag read and written through `set_led_state` and
 * `get_led_state`.
 */
module CommandHandler {
  import opened Text
  import Commands
  import opened LedControl

  /**
   * Upper-case the command, then run the matching arm; LED_ON and LED_OFF
   * write the flag, STATUS reads it.
   */
  method ProcessCommand(flag: LedFlag, command: string) returns (response: string)
    modifies flag
    ensures Commands.Transition(response, flag.on) == Commands.ProcessCommand(command, old(flag.on))
  {
    var key := AsciiUpper(command);
    if key == "LED_ON" {
      flag.SetLedState(true);
      response := Commands.LedOnReply;
    } else if key == "LED_OFF" {
      flag.SetLedState(false);
      response := Commands.LedOffReply;
    } else if key == "STATUS" {
      var on := flag.GetLedState();
      response := if on then Commands.StatusOnReply else Commands.StatusOffReply;
    } else if key == "PING" {
      response := Commands.PingReply;
    } else if key == "HELP" {
      response := Commands.HelpReply;
    } else if key == "" {
      response := Commands.EmptyReply;
    } else {
      response := Commands.UnknownReply;
    }
  }
}
