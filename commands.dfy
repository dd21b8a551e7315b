/** The voice-command vocabulary: the actions, the phrase table, the outcomes of one
    listen-and-transcribe attempt, and what one or several attempts leave in the
    single-slot mailbox. These functions are the specification the listener's methods
    are proved against. */
module Commands {
  import opened Strings

  datatype Option<T> = None | Some(value: T)

  /** The two commands the listener can hand to the display loop. */
  datatype Action = ShowMap | HideMap

  /** The phrase table: trigger phrase and action, in insertion order. */
  type Table = seq<(string, Action)>

  /** The table the listener is built with. */
  const COMMANDS: Table := [("afficher la carte", ShowMap), ("éteindre la carte", HideMap)]

  /** What one listen-and-transcribe attempt produces: the wait for speech timed out, the
      speech was not understood, the recognition service failed, some other exception was
      raised, or a transcript came back. */
  datatype Recognition = Timeout | Unrecognized | ServiceError | OtherError | Text(transcript: string)

  /** Entry `j` is the last entry, in table order, whose trigger occurs in `text`. */
  ghost predicate IsLastMatch(table: Table, text: string, j: int)
  {
    0 <= j < |table| && Contains(text, table[j].0) &&
    forall k :: j < k < |table| ==> !Contains(text, table[k].0)
  }

  /** The action of the last entry whose trigger occurs in `text`, found from the end of
      the table; `None` when no trigger occurs. */
  function LastMatch(table: Table, text: string): Option<Action>
  {
    if table == [] then None
    else if Contains(text, table[|table| - 1].0) then Some(table[|table| - 1].1)
    else LastMatch(table[..|table| - 1], text)
  }

  /** A new value in the slot replaces the old one; nothing leaves it as it was. */
  function Overwrite(slot: Option<Action>, written: Option<Action>): Option<Action>
  {
    if written.Some? then written else slot
  }

  /** No action is found exactly when no trigger occurs in the text. */
  lemma {:induction false} LastMatchNone(table: Table, text: string)
    ensures LastMatch(table, text) == None <==>
            forall i :: 0 <= i < |table| ==> !Contains(text, table[i].0)
  {
    if table != [] {
      var front := table[..|table| - 1];
      LastMatchNone(front, text);
      assert forall i :: 0 <= i < |front| ==> front[i] == table[i];
    }
  }

  /** When some trigger occurs, the action found is that of the last matching entry. */
  lemma {:induction false} LastMatchIsLast(table: Table, text: string, j: int)
    requires IsLastMatch(table, text, j)
    ensures LastMatch(table, text) == Some(table[j].1)
  {
    if j < |table| - 1 {
      var front := table[..|table| - 1];
      assert IsLastMatch(front, text, j) by {
        assert forall k :: 0 <= k < |front| ==> front[k] == table[k];
      }
      LastMatchIsLast(front, text, j);
    }
  }

  /** The slot after one attempt: a transcript is lowercased and scanned, and the last
      matching action overwrites the slot; every failure leaves the slot alone. */
  function SlotAfter(table: Table, r: Recognition, slot: Option<Action>): Option<Action>
  {
    match r
    case Text(s) => Overwrite(slot, LastMatch(table, Lower(s)))
    case _ => slot
  }

  /** The slot after a run of attempts, the latest applied last. */
  function SlotAfterAll(table: Table, rs: seq<Recognition>, slot: Option<Action>): Option<Action>
  {
    if rs == [] then slot
    else SlotAfter(table, rs[|rs| - 1], SlotAfterAll(table, rs[..|rs| - 1], slot))
  }

  /** An attempt writes to the slot: it returned a transcript in which some trigger occurs. */
  ghost predicate Writes(table: Table, r: Recognition)
  {
    r.Text? && LastMatch(table, Lower(r.transcript)).Some?
  }

  /** Attempts of which none writes leave the slot exactly as it was, whether empty or not. */
  lemma {:induction false} SilentAttemptsKeepSlot(table: Table, rs: seq<Recognition>, slot: Option<Action>)
    requires forall i :: 0 <= i < |rs| ==> !Writes(table, rs[i])
    ensures SlotAfterAll(table, rs, slot) == slot
  {
    if rs != [] {
      var front := rs[..|rs| - 1];
      assert forall i :: 0 <= i < |front| ==> front[i] == rs[i];
      SilentAttemptsKeepSlot(table, front, slot);
    }
  }

  /** The most recent writing attempt decides the slot: what earlier attempts wrote is lost,
      and later attempts that write nothing do not change it. */
  lemma {:induction false} LatestWriteWins(table: Table, rs: seq<Recognition>, slot: Option<Action>, j: int)
    requires 0 <= j < |rs| && Writes(table, rs[j])
    requires forall k :: j < k < |rs| ==> !Writes(table, rs[k])
    ensures SlotAfterAll(table, rs, slot) == LastMatch(table, Lower(rs[j].transcript))
  {
    var front := rs[..|rs| - 1];
    assert forall k :: 0 <= k < |front| ==> front[k] == rs[k];
    if j < |rs| - 1 {
      LatestWriteWins(table, front, slot, j);
    }
  }

  /** A transcript that contains "afficher la carte" once lowercased, and not
      "éteindre la carte", asks to show the map, wherever the trigger sits in the sentence. */
  lemma ShowTriggerAnywhere(before: string, after: string, slot: Option<Action>)
    requires !Contains(Lower(before + "afficher la carte" + after), "éteindre la carte")
    ensures SlotAfter(COMMANDS, Text(before + "afficher la carte" + after), slot) == Some(ShowMap)
  {
    var trigger := COMMANDS[0].0;
    LowerConcat(before + trigger, after);
    LowerConcat(before, trigger);
    LowerOfLower(trigger);
    ContainsBetween(Lower(before), trigger, Lower(after));
    LastMatchIsLast(COMMANDS, Lower(before + trigger + after), 0);
  }

  /** "éteindre la carte" is the last entry of the table: once it occurs in the lowercased
      transcript the map is hidden, whatever else the transcript holds. */
  lemma HideTriggerWins(s: string, slot: Option<Action>)
    requires Contains(Lower(s), "éteindre la carte")
    ensures SlotAfter(COMMANDS, Text(s), slot) == Some(HideMap)
  {
    LastMatchIsLast(COMMANDS, Lower(s), 1);
  }

  /** The transcript "je voudrais afficher la carte maintenant" asks to show the map. */
  lemma ShowInsideSentence(slot: Option<Action>)
    ensures SlotAfter(COMMANDS, Text("je voudrais " + "afficher la carte" + " maintenant"), slot) == Some(ShowMap)
  {
    var text := "je voudrais " + "afficher la carte" + " maintenant";
    LowerOfLower(text);
    MissingFirstChar(text, COMMANDS[1].0);
    ShowTriggerAnywhere("je voudrais ", " maintenant", slot);
  }

  /** An accented word before the trigger does not get in the way:
      "je préfère afficher la carte" asks to show the map. */
  lemma ShowAfterAccentedWords(slot: Option<Action>)
    ensures SlotAfter(COMMANDS, Text("je préfère " + "afficher la carte"), slot) == Some(ShowMap)
  {
    var text := "je préfère " + "afficher la carte";
    assert Lower(text) == text by {
      assert forall i :: 0 <= i < |text| ==> !IsUpper(text[i]);
      LowerOfLower(text);
    }
    assert !Contains(text, COMMANDS[1].0) by {
      ContainsIffOccurs(text, COMMANDS[1].0);
      assert forall i :: 0 <= i < |text| && text[i] == 'é' ==> i == 5;
      forall i ensures !OccursAt(COMMANDS[1].0, text, i) {
        if 0 <= i && i + 17 <= |text| {
          assert text[i..i + 17][0] == text[i] && text[i..i + 17][1] == text[i + 1];
        }
      }
    }
    assert "je préfère " + "afficher la carte" + "" == text;
    ShowTriggerAnywhere("je préfère ", "", slot);
  }

  /** Lowercasing comes before matching: a capitalised "Éteindre la carte" asks to hide. */
  lemma HideCapitalised(slot: Option<Action>)
    ensures SlotAfter(COMMANDS, Text("Éteindre la carte"), slot) == Some(HideMap)
  {
    var text := Lower("Éteindre la carte");
    assert text == "" + COMMANDS[1].0 + "";
    ContainsBetween("", COMMANDS[1].0, "");
    HideTriggerWins("Éteindre la carte", slot);
  }

  /** With both triggers in one transcript every match writes and the scan does not stop,
      so the later entry of the table, hiding the map, is what remains. */
  lemma BothTriggersLastEntryWins(slot: Option<Action>)
    ensures SlotAfter(COMMANDS, Text("afficher la carte puis " + "éteindre la carte"), slot) == Some(HideMap)
  {
    var text := "afficher la carte puis " + COMMANDS[1].0;
    LowerOfLower(text);
    ContainsBetween("afficher la carte puis ", COMMANDS[1].0, "");
    assert "afficher la carte puis " + COMMANDS[1].0 + "" == text;
    HideTriggerWins(text, slot);
  }

  /** A transcript with no trigger leaves the slot as it was. */
  lemma NoTriggerKeepsSlot(slot: Option<Action>)
    ensures SlotAfter(COMMANDS, Text("bonjour"), slot) == slot
  {
    var text := Lower("bonjour");
    assert |text| == 7;
    assert !Contains(text, COMMANDS[0].0) && !Contains(text, COMMANDS[1].0);
    LastMatchNone(COMMANDS, text);
  }

  /** Two commands heard before one poll: the second overwrites the first. */
  lemma SecondCommandOverwritesFirst(slot: Option<Action>)
    ensures SlotAfterAll(COMMANDS, [Text("afficher la carte"), Text("éteindre la carte")], slot) == Some(HideMap)
  {
    var rs := [Text("afficher la carte"), Text("éteindre la carte")];
    var text := Lower(rs[1].transcript);
    LowerOfLower(rs[1].transcript);
    ContainsBetween("", COMMANDS[1].0, "");
    assert "" + COMMANDS[1].0 + "" == text;
    HideTriggerWins(rs[1].transcript, slot);
    LatestWriteWins(COMMANDS, rs, slot, 1);
  }

  /** The writes one scan makes, one per locked region: the action of every entry whose
      trigger occurs in the text, in table order. */
  function Matched(table: Table, text: string): seq<Action>
  {
    if table == [] then []
    else Matched(table[..|table| - 1], text) +
         (if Contains(text, table[|table| - 1].0) then [table[|table| - 1].1] else [])
  }

  /** The writes one listening pass makes: those of the scan of its lowercased transcript,
      none for a failure. */
  function PassWrites(table: Table, r: Recognition): seq<Action>
  {
    match r
    case Text(s) => Matched(table, Lower(s))
    case _ => []
  }

  /** The writes a run of listening passes makes, in order. */
  function ListenerWrites(table: Table, rs: seq<Recognition>): seq<Action>
  {
    if rs == [] then []
    else ListenerWrites(table, rs[..|rs| - 1]) + PassWrites(table, rs[|rs| - 1])
  }

  /** The slot after a sequence of writes: each overwrites the last, so the latest stays. */
  function LastWritten(writes: seq<Action>, slot: Option<Action>): Option<Action>
  {
    if writes == [] then slot else Some(writes[|writes| - 1])
  }

  /** Writes in two batches leave what the second batch leaves on top of the first. */
  lemma LastWrittenAppend(a: seq<Action>, b: seq<Action>, slot: Option<Action>)
    ensures LastWritten(a + b, slot) == LastWritten(b, LastWritten(a, slot))
  {
  }

  /** The scan's writes, taken one at a time, end in the last matching action: the same slot
      as the whole scan taken at once. */
  lemma {:induction false} MatchedEndsInLastMatch(table: Table, text: string, slot: Option<Action>)
    ensures LastWritten(Matched(table, text), slot) == Overwrite(slot, LastMatch(table, text))
  {
    if table != [] {
      var front := table[..|table| - 1];
      MatchedEndsInLastMatch(front, text, slot);
      var tail := if Contains(text, table[|table| - 1].0) then [table[|table| - 1].1] else [];
      LastWrittenAppend(Matched(front, text), tail, slot);
    }
  }

  /** Every write of a scan is the action of an entry whose trigger occurs, and every such
      entry writes. */
  lemma {:induction false} MatchedActions(table: Table, text: string, a: Action)
    ensures a in Matched(table, text) <==>
            exists i :: 0 <= i < |table| && Contains(text, table[i].0) && table[i].1 == a
  {
    if table != [] {
      var front := table[..|table| - 1];
      MatchedActions(front, text, a);
      assert forall i :: 0 <= i < |front| ==> front[i] == table[i];
      if a in Matched(table, text) && a !in Matched(front, text) {
        assert Contains(text, table[|table| - 1].0) && table[|table| - 1].1 == a;
      }
    }
  }

  /** The listener's writes, taken one lock region at a time, end where the passes taken
      whole end: the write-level and pass-level views of the mailbox agree. */
  lemma {:induction false} ListenerWritesAgree(table: Table, rs: seq<Recognition>, slot: Option<Action>)
    ensures LastWritten(ListenerWrites(table, rs), slot) == SlotAfterAll(table, rs, slot)
  {
    if rs != [] {
      var front := rs[..|rs| - 1];
      var r := rs[|rs| - 1];
      ListenerWritesAgree(table, front, slot);
      LastWrittenAppend(ListenerWrites(table, front), PassWrites(table, r), slot);
      if r.Text? {
        MatchedEndsInLastMatch(table, Lower(r.transcript), SlotAfterAll(table, front, slot));
      }
    }
  }

  /** A transcript with both triggers makes two writes, show and then hide, each under its
      own lock, so a poll can fall between them. */
  lemma BothTriggersWriteTwice()
    ensures PassWrites(COMMANDS, Text("afficher la carte" + " puis " + "éteindre la carte")) == [ShowMap, HideMap]
  {
    var text := "afficher la carte" + " puis " + "éteindre la carte";
    LowerOfLower(text);
    ContainsBetween("", COMMANDS[0].0, " puis " + "éteindre la carte");
    assert "" + COMMANDS[0].0 + (" puis " + "éteindre la carte") == text;
    ContainsBetween("afficher la carte" + " puis ", COMMANDS[1].0, "");
    assert "afficher la carte" + " puis " + COMMANDS[1].0 + "" == text;
    var front := COMMANDS[..1];
    assert front == [COMMANDS[0]] && front[..0] == [];
    assert Matched(front, text) == [ShowMap];
    assert Matched(COMMANDS, text) == [ShowMap, HideMap];
  }
}
