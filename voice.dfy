/** The listener side of the relay: the command table and the single-slot mailbox it writes,
    and the read-and-clear the display loop calls. The source takes its lock once for each
    write (`Store`) and once for each read-and-clear (`GetCommand`); each of those is one
    sequential method here. A scan makes one write per matching entry, each under its own
    lock, and the ghost field `written` records them, so that the display loop's model can
    place a poll between two writes of one scan. */
module VoiceCommands {
  import opened Strings
  import opened Commands

  class VoiceCommandManager {
    /** The phrase table, fixed when the manager is built. */
    const commands: Table
    /** The mailbox: the pending command, if any. */
    var currentCommand: Option<Action>
    /** Every write the listener has made to the mailbox, in order. */
    ghost var written: seq<Action>

    /** A fresh manager holds the two French triggers and an empty mailbox. */
    constructor ()
      ensures commands == COMMANDS && currentCommand == None && written == []
    {
      commands := COMMANDS;
      currentCommand := None;
      written := [];
    }

    /** One locked write: the action replaces whatever the mailbox held. */
    method Store(action: Action)
      modifies this
      ensures currentCommand == Some(action) && written == old(written) + [action]
    {
      currentCommand := Some(action);
      written := written + [action];
    }

    /** The scan of the table over a lowercased transcript: every entry whose trigger occurs
        writes its action, and nothing stops the scan, so the last match stays. */
    method RecordMatches(text: string)
      modifies this
      ensures currentCommand == Overwrite(old(currentCommand), LastMatch(commands, text))
      ensures written == old(written) + Matched(commands, text)
    {
      var i := 0;
      while i < |commands|
        invariant 0 <= i <= |commands|
        invariant currentCommand == Overwrite(old(currentCommand), LastMatch(commands[..i], text))
        invariant written == old(written) + Matched(commands[..i], text)
      {
        var (trigger, action) := commands[i];
        assert commands[..i + 1][..i] == commands[..i];
        if Contains(text, trigger) {
          Store(action);
        }
        i := i + 1;
      }
      assert commands[..i] == commands;
    }

    /** One pass of the listening loop: only a transcript reaches the scan, lowercased first;
        a timeout, unintelligible speech, a service error or any other exception is swallowed
        and the mailbox is not touched. */
    method Hear(r: Recognition)
      modifies this
      ensures currentCommand == SlotAfter(commands, r, old(currentCommand))
      ensures written == old(written) + PassWrites(commands, r)
    {
      match r
      case Text(s) => RecordMatches(Lower(s));
      case _ =>
    }

    /** Successive passes of the listening loop, in order. */
    method Listen(outcomes: seq<Recognition>)
      modifies this
      ensures currentCommand == SlotAfterAll(commands, outcomes, old(currentCommand))
      ensures written == old(written) + ListenerWrites(commands, outcomes)
    {
      var i := 0;
      while i < |outcomes|
        invariant 0 <= i <= |outcomes|
        invariant currentCommand == SlotAfterAll(commands, outcomes[..i], old(currentCommand))
        invariant written == old(written) + ListenerWrites(commands, outcomes[..i])
      {
        assert outcomes[..i + 1][..i] == outcomes[..i];
        Hear(outcomes[i]);
        i := i + 1;
      }
      assert outcomes[..i] == outcomes;
    }

    /** Read and clear: returns the pending command and leaves the mailbox empty. */
    method GetCommand() returns (command: Option<Action>)
      modifies this
      ensures command == old(currentCommand) && currentCommand == None
      ensures written == old(written)
    {
      command := currentCommand;
      currentCommand := None;
    }
  }

  /** Two polls with no write in between: the first takes the pending command, the second
      finds the mailbox empty. */
  method PollTwice(voice: VoiceCommandManager) returns (first: Option<Action>, second: Option<Action>)
    modifies voice
    ensures first == old(voice.currentCommand) && second == None
    ensures voice.currentCommand == None
  {
    first := voice.GetCommand();
    second := voice.GetCommand();
  }
}
