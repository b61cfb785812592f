/** PAD_TOOL (pcbnew/tools/pad_tool.cpp): the tool object, the copy and push
    actions around the master pad, and EnumeratePads from its guards to its
    final clean-up. */
module PadTool {
  import opened BoardModel
  import opened Sampling
  import opened PadNumbering
  import opened EnumSession
  import opened PushPads
  import opened PadNames

  datatype Option<T> = None | Some(value: T)

  /** wxWidgets' dialog return codes. */
  const wxID_OK: int := 5100
  const wxID_CANCEL: int := 5101

  /** The description of the push commit. */
  const PushMessage: string := "Push Pad Settings"

  /** An item of the selection tool's selection: a pad (with its parent
      footprint, if any) or anything else. */
  datatype SelectionItem = PadItem(pad: nat, parent: Option<nat>) | OtherItem

  /** Lines 124-126 and 196: the selection is exactly one pad. */
  function SinglePad(selection: seq<SelectionItem>): (r: Option<nat>)
    ensures r.Some? <==> |selection| == 1 && selection[0].PadItem?
    ensures r.Some? ==> r.value == selection[0].pad
  {
    if |selection| == 1 && selection[0].PadItem? then Some(selection[0].pad) else None
  }

  /** Every pad of the selection is a pad of the board. */
  predicate SelectionIn(selection: seq<SelectionItem>, padCount: nat, moduleCount: nat)
  {
    forall k | 0 <= k < |selection| && selection[k].PadItem? ::
      selection[k].pad < padCount && (selection[k].parent.Some? ==> selection[k].parent.value < moduleCount)
  }

  /** The pads with the selected flag of those listed in `list` cleared. */
  function Deselect(pads: seq<Pad>, list: seq<nat>): (r: seq<Pad>)
    ensures |r| == |pads|
    ensures forall i | 0 <= i < |pads| :: r[i] == if i in list then pads[i].(selected := false) else pads[i]
  {
    seq(|pads|, i requires 0 <= i < |pads| => if i in list then pads[i].(selected := false) else pads[i])
  }

  /** Lines 236-242: the session runs only when the first footprint exists and
      has pads, and the settings dialog returned OK. */
  predicate EnumerationStarts(modules: seq<Footprint>, dialogRet: int)
  {
    |modules| > 0 && |modules[0].pads| > 0 && dialogRet == wxID_OK
  }

  /** The loop's state after line 262. `selection` holds the pads of the
      selection tool's selection, which selectionClear unflags; a pad flagged
      without being in that selection keeps its flag. */
  function InitialSession(prefix: string, startNumber: int, pads: seq<Pad>, selection: seq<nat>): (r: Session)
    ensures |r.numbering.pads| == |pads|
  {
    Session(Start(prefix, startNumber, Deselect(pads, selection)), Point(0, 0), true)
  }

  /** What EnumeratePads leaves behind: the commit log and the pads. */
  datatype Outcome = Outcome(commit: seq<CommitOp>, pads: seq<Pad>)

  /** Lines 234-418 as a function of the board, the selection tool's
      selection, the dialog's answers and the events. */
  function EnumerateSpec(modules: seq<Footprint>, pads: seq<Pad>, selection: seq<nat>, dialogRet: int,
                         startNumber: int, prefix: string, events: seq<Event>,
                         hit: Point -> seq<nat>, norm: Point -> nat): (r: Outcome)
    requires HitsInRange(hit, |pads|)
    ensures |r.pads| == |pads|
    ensures !EnumerationStarts(modules, dialogRet) ==> r == Outcome([], pads)
    ensures EnumerationStarts(modules, dialogRet) ==>
      forall k | 0 <= k < |modules[0].pads| && modules[0].pads[k] < |pads| :: !r.pads[modules[0].pads[k]].selected
  {
    if !EnumerationStarts(modules, dialogRet) then Outcome([], pads)
    else
      var final := RunSpec(InitialSession(prefix, startNumber, pads, selection), events, hit, norm);
      Outcome(final.numbering.commit, Deselect(final.numbering.pads, modules[0].pads))
  }

  /** The commit of an enumeration: nothing when the guards return early;
      otherwise the Modify intents of the session, closed by exactly one Revert
      (cancel) or Push("Renumber pads") when an ending event arrives. */
  lemma EnumerateCommitShape(modules: seq<Footprint>, pads: seq<Pad>, selection: seq<nat>, dialogRet: int,
                             startNumber: int, prefix: string, events: seq<Event>,
                             hit: Point -> seq<nat>, norm: Point -> nat)
    requires HitsInRange(hit, |pads|)
    ensures var c := EnumerateSpec(modules, pads, selection, dialogRet, startNumber, prefix, events, hit, norm).commit;
      var k := FirstEnd(events);
      && (!EnumerationStarts(modules, dialogRet) ==> c == [])
      && (EnumerationStarts(modules, dialogRet) && k == |events| ==> OnlyModifies(c))
      && (EnumerationStarts(modules, dialogRet) && k < |events| ==>
            |c| > 0 && c[|c| - 1] == Closing(events[k].kind) && OnlyModifies(c[..|c| - 1]))
  {
    if EnumerationStarts(modules, dialogRet) {
      RunClosesCommitOnce(InitialSession(prefix, startNumber, pads, selection), events, hit, norm);
    }
  }

  /** Whatever the events, every number handed out is held exactly once and
      every numbered pad can get its original name back, provided that no pad
      outside the selection tool's selection carries the selected flag on
      entry (see RegisteredPads and the corrected clean-up below). */
  lemma EnumerateKeepsInvariant(pads: seq<Pad>, selection: seq<nat>, startNumber: int, prefix: string,
                                events: seq<Event>, hit: Point -> seq<nat>, norm: Point -> nat)
    requires HitsInRange(hit, |pads|)
    requires forall i | 0 <= i < |pads| && pads[i].selected :: i in selection
    ensures Invariant(RunSpec(InitialSession(prefix, startNumber, pads, selection), events, hit, norm).numbering,
                      startNumber, NamesOf(pads))
  {
    var s := InitialSession(prefix, startNumber, pads, selection);
    StartIsConsistent(prefix, startNumber, Deselect(pads, selection));
    assert NamesOf(Deselect(pads, selection)) == NamesOf(pads);
    RunKeepsInvariant(s, events, hit, norm, startNumber, NamesOf(pads));
  }

  // ---- The clean-up at lines 410-414 ----

  /** A board with two footprints, one pad each; the hit test reports pad 1
      (of the second footprint) everywhere. */
  function TwoFootprints(): seq<Footprint>
  {
    [Footprint("A", 0, [0]), Footprint("B", 0, [1])]
  }

  function TwoPads(): seq<Pad>
  {
    [NamedPad("1"), NamedPad("2")]
  }

  /** The hit test of that board and a norm for moves that stay put. */
  function HitPadOne(p: Point): seq<nat>
  {
    [1]
  }

  function NoDistance(p: Point): nat
  {
    0
  }

  /** Numbering pad 1 of that board with prefix "P" from 1 names it P1. */
  lemma NumberPadOne()
    ensures VisitAll(Start("P", 1, TwoPads()), [1], true).pads == [NamedPad("1"), Numbered("P1")]
  {
    assert [1][1..] == [];
    assert PadName("P", 1) == "P1";
  }

  lemma HitPadOneInRange()
    ensures HitsInRange(HitPadOne, 2)
  {
  }

  /** The first click of the session below numbers pad 1. */
  lemma ClickOnPadOne()
    ensures Step(InitialSession("P", 1, TwoPads(), []), Event(ClickLeft, Point(0, 0)), HitPadOne, NoDistance).numbering.pads
            == [NamedPad("1"), Numbered("P1")]
  {
    var s0 := InitialSession("P", 1, TwoPads(), []);
    assert s0.numbering == Start("P", 1, TwoPads());
    HitPadOneInRange();
    FirstPointTestsCursorOnly(s0, Event(ClickLeft, Point(0, 0)), HitPadOne, NoDistance);
    assert AdjacentUnique(HitPadOne(Point(0, 0))) == [1];
    NumberPadOne();
  }

  /** As written, the clean-up unflags only the first footprint's pads: after a
      click on pad 1 and Activate, pad 1 keeps its selected flag. It is not in
      the selection tool's selection, so the next session starts with it
      flagged, outside the hypothesis of EnumerateKeepsInvariant: a drag there
      skips it (DragSkipsSelectedPad) and a click takes the missing-entry
      branch of Release. */
  lemma StaleFlagAfterEnumeration()
    ensures var out := EnumerateSpec(TwoFootprints(), TwoPads(), [], wxID_OK, 1, "P",
                                     [Event(ClickLeft, Point(0, 0)), Event(Activate, Point(0, 0))],
                                     HitPadOne, NoDistance);
      out.pads[1].selected && out.pads[1].name == "P1"
  {
    var events := [Event(ClickLeft, Point(0, 0)), Event(Activate, Point(0, 0))];
    ClickThenActivate();
    var final := RunSpec(InitialSession("P", 1, TwoPads(), []), events, HitPadOne, NoDistance);
    assert Deselect(final.numbering.pads, [0])[1] == Numbered("P1");
  }

  /** The click numbers pad 1; Activate then only closes the commit. */
  lemma ClickThenActivate()
    ensures RunSpec(InitialSession("P", 1, TwoPads(), []),
                    [Event(ClickLeft, Point(0, 0)), Event(Activate, Point(0, 0))],
                    HitPadOne, NoDistance).numbering.pads
            == [NamedPad("1"), Numbered("P1")]
  {
    var s0 := InitialSession("P", 1, TwoPads(), []);
    HitPadOneInRange();
    ClickOnPadOne();
    RunOfTwoEvents(s0, Event(ClickLeft, Point(0, 0)), Event(Activate, Point(0, 0)), HitPadOne, NoDistance);
    ActivateKeepsPads(Step(s0, Event(ClickLeft, Point(0, 0)), HitPadOne, NoDistance), Point(0, 0), HitPadOne, NoDistance);
  }

  /** Activate closes the commit and leaves the pads as they are. */
  lemma ActivateKeepsPads(s: Session, cursor: Point, hit: Point -> seq<nat>, norm: Point -> nat)
    requires HitsInRange(hit, |s.numbering.pads|)
    ensures Step(s, Event(Activate, cursor), hit, norm).numbering.pads == s.numbering.pads
  {
  }

  /** Two events, the first not ending the loop, run as two steps. */
  lemma RunOfTwoEvents(s: Session, e0: Event, e1: Event, hit: Point -> seq<nat>, norm: Point -> nat)
    requires HitsInRange(hit, |s.numbering.pads|) && !Ends(e0.kind)
    ensures RunSpec(s, [e0, e1], hit, norm) == Step(Step(s, e0, hit, norm), e1, hit, norm)
  {
    var s1 := Step(s, e0, hit, norm);
    assert [e0, e1][1..] == [e1] && [e1][1..] == [];
    assert RunSpec(s, [e0, e1], hit, norm) == RunSpec(s1, [e1], hit, norm);
  }

  /** The pads registered by Modify intents of a commit. */
  function RegisteredPads(c: seq<CommitOp>): (r: seq<nat>)
    ensures forall i :: i in r <==> Modify(i) in c
  {
    if c == [] then []
    else
      var init := c[..|c| - 1];
      assert c == init + [c[|c| - 1]];
      RegisteredPads(init) + (if c[|c| - 1].Modify? then [c[|c| - 1].pad] else [])
  }

  /** EnumeratePads with the clean-up unflagging every pad the session
      registered, whichever footprint it belongs to. */
  function EnumerateSpecFixed(modules: seq<Footprint>, pads: seq<Pad>, selection: seq<nat>, dialogRet: int,
                              startNumber: int, prefix: string, events: seq<Event>,
                              hit: Point -> seq<nat>, norm: Point -> nat): (r: Outcome)
    requires HitsInRange(hit, |pads|)
    ensures |r.pads| == |pads|
    ensures !EnumerationStarts(modules, dialogRet) ==> r == Outcome([], pads)
  {
    if !EnumerationStarts(modules, dialogRet) then Outcome([], pads)
    else
      var final := RunSpec(InitialSession(prefix, startNumber, pads, selection), events, hit, norm);
      Outcome(final.numbering.commit, Deselect(final.numbering.pads, RegisteredPads(final.numbering.commit)))
  }

  /** With the corrected clean-up a session that starts with no stray flag
      leaves no pad flagged, so the next session starts within the hypothesis
      of EnumerateKeepsInvariant again, whatever the selection then holds. It
      makes the same commit as the code as written. */
  lemma FixedEnumerationLeavesNoFlag(modules: seq<Footprint>, pads: seq<Pad>, selection: seq<nat>, dialogRet: int,
                                     startNumber: int, prefix: string, events: seq<Event>,
                                     hit: Point -> seq<nat>, norm: Point -> nat)
    requires HitsInRange(hit, |pads|)
    requires EnumerationStarts(modules, dialogRet)
    requires forall i | 0 <= i < |pads| && pads[i].selected :: i in selection
    ensures var out := EnumerateSpecFixed(modules, pads, selection, dialogRet, startNumber, prefix, events, hit, norm);
      && (forall i | 0 <= i < |out.pads| :: !out.pads[i].selected)
      && out.commit == EnumerateSpec(modules, pads, selection, dialogRet, startNumber, prefix, events, hit, norm).commit
  {
    EnumerateKeepsInvariant(pads, selection, startNumber, prefix, events, hit, norm);
  }

  /** The tool object: the copied flag and the board's master pad, which the
      source reaches through the frame's design settings. */
  class PadTool {
    var padCopied: bool
    var masterPad: Pad

    /** Lines 42-45. */
    constructor (masterPad: Pad)
      ensures !padCopied && this.masterPad == masterPad
    {
      padCopied := false;
      this.masterPad := masterPad;
    }

    /** Lines 52-55. */
    method Reset()
      modifies this
      ensures !padCopied && masterPad == old(masterPad)
    {
      padCopied := false;
    }

    /** Lines 116-137: a single selected pad becomes the master pad's settings
        source; any other selection changes nothing. */
    method CopyPadSettings(selection: seq<SelectionItem>, pads: seq<Pad>, importSettings: (Pad, Pad) -> Pad)
      requires forall k | 0 <= k < |selection| && selection[k].PadItem? :: selection[k].pad < |pads|
      modifies this
      ensures SinglePad(selection).Some? ==>
        padCopied && masterPad == importSettings(old(masterPad), pads[SinglePad(selection).value])
      ensures SinglePad(selection).None? ==> padCopied == old(padCopied) && masterPad == old(masterPad)
    {
      if |selection| == 1 {
        var item := selection[0];
        if item.PadItem? {
          masterPad := importSettings(masterPad, pads[item.pad]);
          padCopied := true;
        }
      }
    }

    /** Lines 190-231: push the single selected pad's settings onto the
        matching pads. `dialogRet` is what the push dialog returned (1 asks for
        every footprint with the same FPID). */
    method PushPadSettings(selection: seq<SelectionItem>, modules: seq<Footprint>, pads: array<Pad>,
                           dialogRet: int, f: PushFilters, importSettings: (Pad, Pad) -> Pad)
      returns (commit: seq<CommitOp>)
      requires SelectionIn(selection, pads.Length, |modules|)
      requires BoardWellFormed(modules, pads.Length)
      modifies pads
      ensures var sel := SinglePad(selection);
        if sel.None? || selection[0].parent.None? || dialogRet == wxID_CANCEL then
          commit == [] && pads[..] == old(pads[..])
        else
          var src := old(pads[sel.value]);
          var log := PushLog(modules, old(pads[..]), |modules|, selection[0].parent.value, src, dialogRet == 1, f);
          && commit == Modifies(log) + [Push(PushMessage)]
          && (forall p | 0 <= p < pads.Length ::
                pads[p] == if p in log then importSettings(old(pads[p]), src) else old(pads[p]))
    {
      commit := [];
      if |selection| != 1 || !selection[0].PadItem? {
        return;
      }
      var srcPad := selection[0].pad;
      if selection[0].parent.None? {
        return;
      }
      var footprint := selection[0].parent.value;
      if dialogRet == wxID_CANCEL {
        return;
      }
      var editSameModules := dialogRet == 1;
      commit := DoPushPadProperties(modules, pads, footprint, pads[srcPad], editSameModules, f, importSettings, commit);
      commit := commit + [Push(PushMessage)];
    }

    /** Lines 234-418. The settings dialog's answers are `dialogRet`,
        `startNumber` and `prefix`; `events` are what Wait() delivers, `hit`
        the collector's answer at a point and `norm` EuclideanNorm. */
    method EnumeratePads(modules: seq<Footprint>, pads: array<Pad>, selection: seq<nat>, dialogRet: int,
                         startNumber: int, prefix: string, events: seq<Event>,
                         hit: Point -> seq<nat>, norm: Point -> nat)
      returns (commit: seq<CommitOp>)
      requires BoardWellFormed(modules, pads.Length) && HitsInRange(hit, pads.Length)
      modifies pads
      ensures Outcome(commit, pads[..])
              == EnumerateSpec(modules, old(pads[..]), selection, dialogRet, startNumber, prefix, events, hit, norm)
    {
      if |modules| == 0 || |modules[0].pads| == 0 {
        return [];
      }
      if dialogRet != wxID_OK {
        return [];
      }
      // Line 262: selectionClear unflags the items of the selection.
      ClearPadsSelection(pads, selection);
      var session := new RenumberSession(pads, prefix, startNumber);
      session.Run(events, hit, norm);
      commit := session.commit;
      ClearPadsSelection(pads, modules[0].pads);
    }
  }

  /** Lines 410-414 (and selectionClear at line 262, on the selection's
      pads): clear the selected flag of the listed pads. */
  method ClearPadsSelection(pads: array<Pad>, list: seq<nat>)
    modifies pads
    ensures pads[..] == Deselect(old(pads[..]), list)
  {
    var k := 0;
    while k < |list|
      invariant 0 <= k <= |list|
      invariant pads[..] == Deselect(old(pads[..]), list[..k])
    {
      if list[k] < pads.Length {
        pads[list[k]] := pads[list[k]].(selected := false);
      }
      assert forall i :: i in list[..k + 1] <==> i in list[..k] || i == list[k];
      k := k + 1;
    }
    assert list[..k] == list;
  }
}
