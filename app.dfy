/** The display loop: each tick handles the window's events, polls the mailbox once and
    applies what it got to the map's visibility. A run is a finite script of frames; a frame
    holds the listener's writes to the mailbox that land before that tick's poll, and the
    events the tick handles. Each write and each poll takes the lock on its own, so a frame
    boundary may fall anywhere in the listener's sequence of writes, even between two writes
    of one scan. */
module App {
  import opened Strings
  import opened Commands
  import opened VoiceCommands
  import opened Display

  datatype Key = Escape | Space | H | OtherKey

  /** A window event: the close button, a key press, or anything else (forwarded to the
      widget manager only). */
  datatype Event = Quit | KeyDown(key: Key) | OtherEvent

  /** The close button and the Escape key end the loop. */
  predicate Stops(e: Event)
  {
    e == Quit || e == KeyDown(Escape)
  }

  /** Some event of the tick ends the loop. */
  predicate Quits(events: seq<Event>)
  {
    exists i :: 0 <= i < |events| && Stops(events[i])
  }

  /** The shortcut keys: Space shows the map and H hides it, bypassing the mailbox. */
  function Shortcut(e: Event): Option<Action>
  {
    match e
    case KeyDown(Space) => Some(ShowMap)
    case KeyDown(H) => Some(HideMap)
    case _ => None
  }

  /** Event `j` is the last shortcut key of the tick. */
  ghost predicate IsLastShortcut(events: seq<Event>, j: int)
  {
    0 <= j < |events| && Shortcut(events[j]).Some? &&
    forall k :: j < k < |events| ==> Shortcut(events[k]).None?
  }

  /** The last shortcut key among the events, searched from the end. */
  function LastShortcut(events: seq<Event>): Option<Action>
  {
    if events == [] then None
    else if Shortcut(events[|events| - 1]).Some? then Shortcut(events[|events| - 1])
    else LastShortcut(events[..|events| - 1])
  }

  /** Visibility after performing a command, if there is one. */
  function VisibleAfter(visible: bool, command: Option<Action>): bool
  {
    match command
    case Some(a) => a == ShowMap
    case None => visible
  }

  /** Visibility at the end of a tick: first the shortcut keys, then the polled command. */
  function TickVisible(events: seq<Event>, visible: bool, pending: Option<Action>): bool
  {
    VisibleAfter(VisibleAfter(visible, LastShortcut(events)), pending)
  }

  /** With no shortcut key in the tick the search finds none, and conversely. */
  lemma {:induction false} LastShortcutNone(events: seq<Event>)
    ensures LastShortcut(events) == None <==> forall i :: 0 <= i < |events| ==> Shortcut(events[i]).None?
  {
    if events != [] {
      var front := events[..|events| - 1];
      LastShortcutNone(front);
      assert forall i :: 0 <= i < |front| ==> front[i] == events[i];
    }
  }

  /** The search finds the last shortcut key of the tick. */
  lemma {:induction false} LastShortcutIsLast(events: seq<Event>, j: int)
    requires IsLastShortcut(events, j)
    ensures LastShortcut(events) == Shortcut(events[j])
  {
    if j < |events| - 1 {
      var front := events[..|events| - 1];
      assert IsLastShortcut(front, j) by {
        assert forall k :: 0 <= k < |front| ==> front[k] == events[k];
      }
      LastShortcutIsLast(front, j);
    }
  }

  /** A polled command decides the visibility, whatever keys the same tick pressed. */
  lemma VoiceOverridesKeys(events: seq<Event>, visible: bool, a: Action)
    ensures TickVisible(events, visible, Some(a)) == (a == ShowMap)
  {
  }

  /** With an empty mailbox the last shortcut key decides: Space shows the map, H hides it. */
  lemma ShortcutBypassesMailbox(events: seq<Event>, visible: bool, j: int)
    requires IsLastShortcut(events, j)
    ensures TickVisible(events, visible, None) == (events[j] == KeyDown(Space))
  {
    LastShortcutIsLast(events, j);
  }

  /** A tick with no shortcut key and an empty mailbox leaves the visibility alone. */
  lemma QuietTickKeepsVisibility(events: seq<Event>, visible: bool)
    requires forall i :: 0 <= i < |events| ==> Shortcut(events[i]).None?
    ensures TickVisible(events, visible, None) == visible
  {
    LastShortcutNone(events);
  }

  /** One pass of the display loop's body, frame pacing and drawing aside. Every event is
      handled, even after a quit; then the mailbox is polled exactly once. Returns whether the
      loop goes on. */
  method Tick(events: seq<Event>, display: MapDisplay, voice: VoiceCommandManager) returns (running: bool)
    modifies display, voice
    ensures running == !Quits(events)
    ensures display.isVisible == TickVisible(events, old(display.isVisible), old(voice.currentCommand))
    ensures voice.currentCommand == None && voice.written == old(voice.written)
  {
    running := true;
    var i := 0;
    while i < |events|
      invariant 0 <= i <= |events|
      invariant running == !Quits(events[..i])
      invariant display.isVisible == VisibleAfter(old(display.isVisible), LastShortcut(events[..i]))
      invariant voice.currentCommand == old(voice.currentCommand)
      invariant voice.written == old(voice.written)
    {
      var event := events[i];
      assert events[..i + 1][..i] == events[..i];
      assert events[..i + 1][i] == event;
      if event == Quit {
        running := false;
      }
      if event.KeyDown? {
        if event.key == Escape {
          running := false;
        } else if event.key == Space {
          display.ShowMap();
        } else if event.key == H {
          display.HideMap();
        }
      }
      i := i + 1;
    }
    assert events[..i] == events;
    var command := voice.GetCommand();
    match command
    case Some(ShowMap) => display.ShowMap();
    case Some(HideMap) => display.HideMap();
    case None =>
  }

  /** What the display loop and the mailbox hold between ticks. */
  datatype Snapshot = Snapshot(visible: bool, pending: Option<Action>)

  /** One frame of the script: the listener's writes that land before the poll, then the
      tick's events. */
  datatype Frame = Frame(writes: seq<Action>, events: seq<Event>)

  /** The state after one frame: the mailbox ends empty, having been polled. */
  function TickSpec(f: Frame, s: Snapshot): Snapshot
  {
    Snapshot(TickVisible(f.events, s.visible, LastWritten(f.writes, s.pending)), None)
  }

  /** The state after the frames, in order. */
  function RunSpec(frames: seq<Frame>, s: Snapshot): Snapshot
  {
    if frames == [] then s
    else TickSpec(frames[|frames| - 1], RunSpec(frames[..|frames| - 1], s))
  }

  /** The listener's writes over the frames, in order. */
  function AllWrites(frames: seq<Frame>): seq<Action>
  {
    if frames == [] then []
    else AllWrites(frames[..|frames| - 1]) + frames[|frames| - 1].writes
  }

  /** The listener's writes that land before a poll, each under the lock on its own. */
  method Deliver(writes: seq<Action>, voice: VoiceCommandManager)
    modifies voice
    ensures voice.currentCommand == LastWritten(writes, old(voice.currentCommand))
    ensures voice.written == old(voice.written) + writes
  {
    var i := 0;
    while i < |writes|
      invariant 0 <= i <= |writes|
      invariant voice.currentCommand == LastWritten(writes[..i], old(voice.currentCommand))
      invariant voice.written == old(voice.written) + writes[..i]
    {
      assert writes[..i + 1] == writes[..i] + [writes[i]];
      voice.Store(writes[i]);
      i := i + 1;
    }
    assert writes[..i] == writes;
  }

  /** The display loop over a script of frames. The first tick always runs; the loop stops
      after the first tick whose events ask to quit, or when the script runs out. The writes
      the frames deliver are those the listener made, in order. */
  method RunLoop(frames: seq<Frame>, display: MapDisplay, voice: VoiceCommandManager) returns (ticks: nat)
    modifies display, voice
    ensures ticks <= |frames|
    ensures forall k :: 0 <= k < ticks - 1 ==> !Quits(frames[k].events)
    ensures ticks < |frames| ==> 0 < ticks && Quits(frames[ticks - 1].events)
    ensures Snapshot(display.isVisible, voice.currentCommand) ==
            RunSpec(frames[..ticks], old(Snapshot(display.isVisible, voice.currentCommand)))
    ensures voice.written == old(voice.written) + AllWrites(frames[..ticks])
  {
    ghost var start := Snapshot(display.isVisible, voice.currentCommand);
    ghost var before := voice.written;
    var running := true;
    ticks := 0;
    while running && ticks < |frames|
      invariant ticks <= |frames|
      invariant forall k :: 0 <= k < ticks - 1 ==> !Quits(frames[k].events)
      invariant running == (ticks == 0 || !Quits(frames[ticks - 1].events))
      invariant Snapshot(display.isVisible, voice.currentCommand) == RunSpec(frames[..ticks], start)
      invariant voice.written == before + AllWrites(frames[..ticks])
      decreases |frames| - ticks
    {
      assert frames[..ticks + 1][..ticks] == frames[..ticks];
      Deliver(frames[ticks].writes, voice);
      running := Tick(frames[ticks].events, display, voice);
      ticks := ticks + 1;
    }
  }

  /** The program: a hidden map, a manager with the French table and an empty mailbox, then
      the display loop. Returns how many ticks ran and whether the map is shown at the end. */
  method RunProgram(frames: seq<Frame>) returns (ticks: nat, visible: bool)
    ensures ticks <= |frames|
    ensures forall k :: 0 <= k < ticks - 1 ==> !Quits(frames[k].events)
    ensures ticks < |frames| ==> 0 < ticks && Quits(frames[ticks - 1].events)
    ensures visible == RunSpec(frames[..ticks], Snapshot(false, None)).visible
  {
    var display := new MapDisplay();
    var voice := new VoiceCommandManager();
    ticks := RunLoop(frames, display, voice);
    visible := display.isVisible;
  }

  /** Every tick polls the mailbox, so it is empty after any non-empty run. */
  lemma MailboxEmptyAfterRun(frames: seq<Frame>, s: Snapshot)
    requires frames != []
    ensures RunSpec(frames, s).pending == None
  {
  }

  /** When whole listening passes land before a poll, the tick sees what the passes taken
      whole leave in the mailbox. */
  lemma TickAfterPasses(table: Table, rs: seq<Recognition>, events: seq<Event>, s: Snapshot)
    ensures TickSpec(Frame(ListenerWrites(table, rs), events), s) ==
            Snapshot(TickVisible(events, s.visible, SlotAfterAll(table, rs, s.pending)), None)
  {
    ListenerWritesAgree(table, rs, s.pending);
  }

  /** End to end: a spoken sentence containing "afficher la carte" shows a hidden map at the
      next tick. */
  lemma SpokenShowShowsMap()
    ensures RunSpec([Frame(ListenerWrites(COMMANDS, [Text("je voudrais " + "afficher la carte" + " maintenant")]), [])],
                    Snapshot(false, None)) == Snapshot(true, None)
  {
    var r := Text("je voudrais " + "afficher la carte" + " maintenant");
    ShowInsideSentence(None);
    assert [r][..0] == [];
    TickAfterPasses(COMMANDS, [r], [], Snapshot(false, None));
  }

  /** End to end: "éteindre la carte" hides a shown map at the next tick. */
  lemma SpokenHideHidesMap()
    ensures RunSpec([Frame(ListenerWrites(COMMANDS, [Text("éteindre la carte")]), [])],
                    Snapshot(true, None)) == Snapshot(false, None)
  {
    var r := Text("éteindre la carte");
    LowerOfLower(r.transcript);
    ContainsBetween("", COMMANDS[1].0, "");
    assert "" + COMMANDS[1].0 + "" == Lower(r.transcript);
    HideTriggerWins(r.transcript, None);
    assert [r][..0] == [];
    TickAfterPasses(COMMANDS, [r], [], Snapshot(true, None));
  }

  /** End to end: a transcript with no trigger leaves the map as it was. */
  lemma UnrelatedSpeechChangesNothing(visible: bool)
    ensures RunSpec([Frame(ListenerWrites(COMMANDS, [Text("bonjour")]), [])],
                    Snapshot(visible, None)) == Snapshot(visible, None)
  {
    NoTriggerKeepsSlot(None);
    assert [Text("bonjour")][..0] == [];
    TickAfterPasses(COMMANDS, [Text("bonjour")], [], Snapshot(visible, None));
  }

  /** The Space key shows the map with nothing in the mailbox. */
  lemma SpaceShowsWithEmptyMailbox(visible: bool)
    ensures RunSpec([Frame([], [KeyDown(Space)])], Snapshot(visible, None)) == Snapshot(true, None)
  {
    ShortcutBypassesMailbox([KeyDown(Space)], visible, 0);
  }

  /** Space pressed in the tick that polls "éteindre la carte": the voice command is applied
      after the key, so the map ends hidden. */
  lemma VoiceAfterKeyInSameTick(visible: bool)
    ensures RunSpec([Frame(ListenerWrites(COMMANDS, [Text("éteindre la carte")]), [KeyDown(Space)])],
                    Snapshot(visible, None)) == Snapshot(false, None)
  {
    var r := Text("éteindre la carte");
    LowerOfLower(r.transcript);
    ContainsBetween("", COMMANDS[1].0, "");
    assert "" + COMMANDS[1].0 + "" == Lower(r.transcript);
    HideTriggerWins(r.transcript, None);
    assert [r][..0] == [];
    TickAfterPasses(COMMANDS, [r], [KeyDown(Space)], Snapshot(visible, None));
  }

  /** A poll can fall between the two writes of one scan. The transcript
      "afficher la carte puis éteindre la carte" writes show and then hide; when a tick polls
      between them, the map is shown for that tick and hidden at the next. */
  lemma PollBetweenWritesOfOneScan()
    ensures ListenerWrites(COMMANDS, [Text("afficher la carte" + " puis " + "éteindre la carte")]) ==
            AllWrites([Frame([ShowMap], []), Frame([HideMap], [])])
    ensures RunSpec([Frame([ShowMap], [])], Snapshot(false, None)) == Snapshot(true, None)
    ensures RunSpec([Frame([ShowMap], []), Frame([HideMap], [])], Snapshot(false, None)) == Snapshot(false, None)
  {
    var r := Text("afficher la carte" + " puis " + "éteindre la carte");
    BothTriggersWriteTwice();
    assert [r][..0] == [];
    var frames := [Frame([ShowMap], []), Frame([HideMap], [])];
    assert frames[..1] == [Frame([ShowMap], [])] && frames[..1][..0] == [];
  }

  /** The loop does not break on a quit: the events after it in the same tick are still
      handled, so H pressed after the close button still hides the map, and that tick is the
      last one. */
  lemma EventsAfterQuitStillHandled(visible: bool)
    ensures Quits([Quit, KeyDown(H)])
    ensures RunSpec([Frame([], [Quit, KeyDown(H)])], Snapshot(visible, None)) == Snapshot(false, None)
  {
    assert Stops([Quit, KeyDown(H)][0]);
    ShortcutBypassesMailbox([Quit, KeyDown(H)], visible, 1);
  }
}
