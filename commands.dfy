/**
 * The LED command protocol as a state machine: a trimmed command line and
 * the LED flag give the reply and the new flag. Both copies of
 * `process_command` (the server's own and the command handler's) follow it.
 */
module Commands {
  import opened Text

  const LedOnReply: string := "OK: LED turned ON"
  const LedOffReply: string := "OK: LED turned OFF"
  const StatusOnReply: string := "STATUS: LED is ON"
  const StatusOffReply: string := "STATUS: LED is OFF"
  const PingReply: string := "PONG"
  const HelpReply: string := "Available commands: LED_ON, LED_OFF, STATUS, PING, HELP"
  const EmptyReply: string := "ERROR: Empty command"
  const UnknownReply: string := "ERROR: Unknown command. Type HELP for available commands"

  /** The reply to a command and the LED flag after it. */
  datatype Transition = Transition(response: string, ledOn: bool)

  /** The commands the server knows, by their upper-cased spelling. */
  predicate IsKnown(key: string)
  {
    key == "LED_ON" || key == "LED_OFF" || key == "STATUS" || key == "PING" || key == "HELP" || key == ""
  }

  /** `process_command`: match the upper-cased command against the command names. */
  function ProcessCommand(command: string, ledOn: bool): Transition
  {
    var key := AsciiUpper(command);
    if key == "LED_ON" then Transition(LedOnReply, true)
    else if key == "LED_OFF" then Transition(LedOffReply, false)
    else if key == "STATUS" then Transition(if ledOn then StatusOnReply else StatusOffReply, ledOn)
    else if key == "PING" then Transition(PingReply, ledOn)
    else if key == "HELP" then Transition(HelpReply, ledOn)
    else if key == "" then Transition(EmptyReply, ledOn)
    else Transition(UnknownReply, ledOn)
  }

  /** LED_ON switches the LED on and LED_OFF switches it off, whatever it was. */
  lemma SwitchesSetTheFlag(command: string, ledOn: bool)
    ensures AsciiUpper(command) == "LED_ON" ==>
      ProcessCommand(command, ledOn).ledOn && ProcessCommand(command, ledOn).response == LedOnReply
    ensures AsciiUpper(command) == "LED_OFF" ==>
      !ProcessCommand(command, ledOn).ledOn && ProcessCommand(command, ledOn).response == LedOffReply
  {
  }

  /** Only LED_ON and LED_OFF can change the flag. */
  lemma OnlySwitchesChangeTheFlag(command: string, ledOn: bool)
    ensures ProcessCommand(command, ledOn).ledOn != ledOn ==>
      AsciiUpper(command) == (if ledOn then "LED_OFF" else "LED_ON")
  {
  }

  /** STATUS reports the flag, ON exactly when it is set, and leaves it as it is. */
  lemma StatusReportsTheFlag(command: string, ledOn: bool)
    requires AsciiUpper(command) == "STATUS"
    ensures ProcessCommand(command, ledOn).ledOn == ledOn
    ensures ProcessCommand(command, ledOn).response == StatusOnReply <==> ledOn
    ensures ProcessCommand(command, ledOn).response == StatusOffReply <==> !ledOn
  {
  }

  /** PING, HELP, the empty command and every unknown command give their fixed reply and leave the flag alone. */
  lemma OtherCommandsKeepTheFlag(command: string, ledOn: bool)
    requires AsciiUpper(command) != "LED_ON" && AsciiUpper(command) != "LED_OFF" && AsciiUpper(command) != "STATUS"
    ensures ProcessCommand(command, ledOn).ledOn == ledOn
    ensures ProcessCommand(command, ledOn).response ==
      if AsciiUpper(command) == "PING" then PingReply
      else if AsciiUpper(command) == "HELP" then HelpReply
      else if command == "" then EmptyReply
      else UnknownReply
  {
  }

  /** An unknown command is answered with the unknown-command error, and a known one never is. */
  lemma UnknownCommands(command: string, ledOn: bool)
    ensures ProcessCommand(command, ledOn).response == UnknownReply <==> !IsKnown(AsciiUpper(command))
  {
  }

  /** The reply tells which command was run: the eight replies are distinct. */
  lemma RepliesAreDistinct()
    ensures |{LedOnReply, LedOffReply, StatusOnReply, StatusOffReply, PingReply, HelpReply, EmptyReply, UnknownReply}| == 8
  {
    assert LedOnReply[0] != StatusOnReply[0] && LedOffReply[0] != StatusOffReply[0];
  }

  /** Matching ignores case: a command behaves as its upper-cased form. */
  lemma CaseInsensitive(command: string, ledOn: bool)
    ensures ProcessCommand(command, ledOn) == ProcessCommand(AsciiUpper(command), ledOn)
  {
    AsciiUpperIdempotent(command);
  }

  /** Running any command twice leaves the flag as running it once, and gives the same reply. */
  lemma Idempotent(command: string, ledOn: bool)
    ensures var once := ProcessCommand(command, ledOn);
      ProcessCommand(command, once.ledOn) == once
  {
  }
}
