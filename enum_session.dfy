/** The interactive loop of PAD_TOOL::EnumeratePads
    (pcbnew/tools/pad_tool.cpp:278-408): events, the pure transition `Step`
    and the session object that performs it in place. */
module EnumSession {
  import opened BoardModel
  import opened Sampling
  import opened PadNumbering

  /** wxWidgets' key code of the Enter key. */
  const WXK_RETURN: int := 13

  /** The description of the renumbering commit. */
  const RenumberMessage: string := "Renumber pads"

  /** The kinds of event the loop tells apart; anything else is OtherEvent. */
  datatype EventKind =
    | CancelInteractive
    | Activate
    | DragLeft
    | ClickLeft
    | KeyPressed(keyCode: int)
    | DblClickLeft
    | ClickRight
    | OtherEvent

  /** An event with the cursor position the view reports while it is handled. */
  datatype Event = Event(kind: EventKind, cursor: Point)

  /** Everything the loop carries from one event to the next. */
  datatype Session = Session(numbering: Numbering, oldCursorPos: Point, isFirstPoint: bool)

  /** Activate, Enter or a left double-click commit the renumbering. */
  predicate Confirms(k: EventKind)
  {
    k == Activate || k == KeyPressed(WXK_RETURN) || k == DblClickLeft
  }

  /** The events that end the loop. */
  predicate Ends(k: EventKind)
  {
    k == CancelInteractive || Confirms(k)
  }

  /** What an ending event records in the commit. */
  function Closing(k: EventKind): CommitOp
  {
    if k == CancelInteractive then Revert else Push(RenumberMessage)
  }

  /** The pads a drag or click from `fromPos` to `cursor` visits, in order:
      every pad hit at a test point of the move, never twice in a row. */
  function Candidates(fromPos: Point, cursor: Point, hit: Point -> seq<nat>, norm: Point -> nat): (r: seq<nat>)
    ensures forall k | 0 <= k < |r| - 1 :: r[k] != r[k + 1]
    ensures var points := SamplePoints(fromPos, cursor, norm(Sub(cursor, fromPos)), SearchStep);
      forall j, x | 0 <= j < |points| && x in hit(points[j]) :: x in r
  {
    AdjacentUnique(HitsAlong(SamplePoints(fromPos, cursor, norm(Sub(cursor, fromPos)), SearchStep), hit))
  }

  lemma CandidatesInRange(fromPos: Point, cursor: Point, hit: Point -> seq<nat>, norm: Point -> nat, padCount: nat)
    requires HitsInRange(hit, padCount)
    ensures AllPadsIn(Candidates(fromPos, cursor, hit, norm), padCount)
  {
    var hits := HitsAlong(SamplePoints(fromPos, cursor, norm(Sub(cursor, fromPos)), SearchStep), hit);
    HitsAlongInRange(SamplePoints(fromPos, cursor, norm(Sub(cursor, fromPos)), SearchStep), hit, padCount);
    AllPadsInSublist(hits, AdjacentUnique(hits), padCount);
  }

  function Close(s: Session, op: CommitOp): Session
  {
    s.(numbering := s.numbering.(commit := s.numbering.commit + [op]))
  }

  /** One turn of the loop, in the order the source tests the event. */
  function Step(s: Session, ev: Event, hit: Point -> seq<nat>, norm: Point -> nat): (r: Session)
    requires HitsInRange(hit, |s.numbering.pads|)
    ensures |r.numbering.pads| == |s.numbering.pads| && r.numbering.prefix == s.numbering.prefix
  {
    if ev.kind == CancelInteractive then Close(s, Revert)
    else if ev.kind == Activate then Close(s, Push(RenumberMessage))
    else if ev.kind == DragLeft || ev.kind == ClickLeft then
      var fromPos := if s.isFirstPoint then ev.cursor else s.oldCursorPos;
      var list := Candidates(fromPos, ev.cursor, hit, norm);
      CandidatesInRange(fromPos, ev.cursor, hit, norm, |s.numbering.pads|);
      Session(VisitAll(s.numbering, list, ev.kind == ClickLeft), ev.cursor, false)
    else if ev.kind == KeyPressed(WXK_RETURN) || ev.kind == DblClickLeft then Close(s, Push(RenumberMessage))
    else s.(oldCursorPos := ev.cursor)
  }

  /** The loop over the events Wait() delivers, up to and including the first
      ending event; when the events run out the loop just stops. */
  function RunSpec(s: Session, events: seq<Event>, hit: Point -> seq<nat>, norm: Point -> nat): (r: Session)
    requires HitsInRange(hit, |s.numbering.pads|)
    ensures |r.numbering.pads| == |s.numbering.pads| && r.numbering.prefix == s.numbering.prefix
    decreases |events|
  {
    if events == [] then s
    else
      var s' := Step(s, events[0], hit, norm);
      if Ends(events[0].kind) then s' else RunSpec(s', events[1..], hit, norm)
  }

  /** The position of the first ending event, or |events| when there is none. */
  function FirstEnd(events: seq<Event>): (k: nat)
    ensures k <= |events|
    ensures forall j | 0 <= j < k :: !Ends(events[j].kind)
    ensures k < |events| ==> Ends(events[k].kind)
  {
    if events == [] then 0
    else if Ends(events[0].kind) then 0
    else 1 + FirstEnd(events[1..])
  }

  /** A commit log holding only Modify intents. */
  predicate OnlyModifies(c: seq<CommitOp>)
  {
    forall j | 0 <= j < |c| :: c[j].Modify?
  }

  // ---- Properties of the loop ----

  lemma StepKeepsInvariant(s: Session, ev: Event, hit: Point -> seq<nat>, norm: Point -> nat, start: int, initial: seq<string>)
    requires HitsInRange(hit, |s.numbering.pads|)
    requires Invariant(s.numbering, start, initial)
    ensures Invariant(Step(s, ev, hit, norm).numbering, start, initial)
  {
    if ev.kind == CancelInteractive {
      CloseKeepsInvariant(s.numbering, start, initial, Revert);
    } else if ev.kind == Activate || ev.kind == KeyPressed(WXK_RETURN) || ev.kind == DblClickLeft {
      CloseKeepsInvariant(s.numbering, start, initial, Push(RenumberMessage));
    } else if ev.kind == DragLeft || ev.kind == ClickLeft {
      var fromPos := if s.isFirstPoint then ev.cursor else s.oldCursorPos;
      CandidatesInRange(fromPos, ev.cursor, hit, norm, |s.numbering.pads|);
      VisitAllKeepsInvariant(s.numbering, start, initial, Candidates(fromPos, ev.cursor, hit, norm), ev.kind == ClickLeft);
    }
  }

  /** The invariant (number conservation, paired names) holds for the whole session. */
  lemma {:induction false} RunKeepsInvariant(s: Session, events: seq<Event>, hit: Point -> seq<nat>, norm: Point -> nat, start: int, initial: seq<string>)
    requires HitsInRange(hit, |s.numbering.pads|)
    requires Invariant(s.numbering, start, initial)
    ensures Invariant(RunSpec(s, events, hit, norm).numbering, start, initial)
    decreases |events|
  {
    if events != [] {
      StepKeepsInvariant(s, events[0], hit, norm, start, initial);
      if !Ends(events[0].kind) {
        RunKeepsInvariant(Step(s, events[0], hit, norm), events[1..], hit, norm, start, initial);
      }
    }
  }

  /** One visit appends at most one Modify intent to the commit. */
  lemma VisitAppendsModify(n: Numbering, i: nat, isClick: bool)
    requires i < |n.pads|
    ensures var c := Visit(n, i, isClick).commit;
      c == n.commit || c == n.commit + [Modify(i)]
  {
  }

  /** Visiting pads only ever appends Modify intents to the commit. */
  lemma {:induction false} VisitAllAppendsModifies(n: Numbering, list: seq<nat>, isClick: bool)
    requires AllPadsIn(list, |n.pads|)
    ensures var c := VisitAll(n, list, isClick).commit;
      n.commit <= c && OnlyModifies(c[|n.commit|..])
    decreases |list|
  {
    if list != [] {
      var n' := Visit(n, list[0], isClick);
      VisitAppendsModify(n, list[0], isClick);
      VisitAllAppendsModifies(n', list[1..], isClick);
      var c := VisitAll(n, list, isClick).commit;
      assert c[|n.commit|..] == n'.commit[|n.commit|..] + c[|n'.commit|..];
    }
  }

  /** An ending event appends its closing entry; any other event only Modify intents. */
  lemma StepCommit(s: Session, ev: Event, hit: Point -> seq<nat>, norm: Point -> nat)
    requires HitsInRange(hit, |s.numbering.pads|)
    ensures var c := Step(s, ev, hit, norm).numbering.commit;
      && (Ends(ev.kind) ==> c == s.numbering.commit + [Closing(ev.kind)])
      && (!Ends(ev.kind) ==> s.numbering.commit <= c && OnlyModifies(c[|s.numbering.commit|..]))
  {
    if ev.kind == DragLeft || ev.kind == ClickLeft {
      var fromPos := if s.isFirstPoint then ev.cursor else s.oldCursorPos;
      CandidatesInRange(fromPos, ev.cursor, hit, norm, |s.numbering.pads|);
      VisitAllAppendsModifies(s.numbering, Candidates(fromPos, ev.cursor, hit, norm), ev.kind == ClickLeft);
    }
  }

  /** The session only ever appends to the commit. */
  lemma {:induction false} RunExtendsCommit(s: Session, events: seq<Event>, hit: Point -> seq<nat>, norm: Point -> nat)
    requires HitsInRange(hit, |s.numbering.pads|)
    ensures s.numbering.commit <= RunSpec(s, events, hit, norm).numbering.commit
    decreases |events|
  {
    if events != [] {
      StepCommit(s, events[0], hit, norm);
      if !Ends(events[0].kind) {
        RunExtendsCommit(Step(s, events[0], hit, norm), events[1..], hit, norm);
      }
    }
  }

  /** With no ending event, the commit holds only Modify intents. */
  lemma {:induction false} RunWithoutEndOnlyModifies(s: Session, events: seq<Event>, hit: Point -> seq<nat>, norm: Point -> nat)
    requires HitsInRange(hit, |s.numbering.pads|)
    requires OnlyModifies(s.numbering.commit)
    requires FirstEnd(events) == |events|
    ensures OnlyModifies(RunSpec(s, events, hit, norm).numbering.commit)
    decreases |events|
  {
    if events != [] {
      var s' := Step(s, events[0], hit, norm);
      StepCommit(s, events[0], hit, norm);
      var c0, c1 := s.numbering.commit, s'.numbering.commit;
      assert c1 == c0 + c1[|c0|..];
      assert FirstEnd(events) == 1 + FirstEnd(events[1..]);
      RunWithoutEndOnlyModifies(s', events[1..], hit, norm);
    }
  }

  /** With an ending event at k, the commit is Modify intents then that event's closing entry. */
  lemma {:induction false} RunEndClosesCommit(s: Session, events: seq<Event>, hit: Point -> seq<nat>, norm: Point -> nat)
    requires HitsInRange(hit, |s.numbering.pads|)
    requires OnlyModifies(s.numbering.commit)
    requires FirstEnd(events) < |events|
    ensures var c := RunSpec(s, events, hit, norm).numbering.commit;
      |c| > 0 && c[|c| - 1] == Closing(events[FirstEnd(events)].kind) && OnlyModifies(c[..|c| - 1])
    decreases |events|
  {
    var s' := Step(s, events[0], hit, norm);
    StepCommit(s, events[0], hit, norm);
    var c0, c1 := s.numbering.commit, s'.numbering.commit;
    if Ends(events[0].kind) {
      assert c1[..|c1| - 1] == c0;
    } else {
      assert c1 == c0 + c1[|c0|..];
      assert FirstEnd(events) == 1 + FirstEnd(events[1..]);
      RunEndClosesCommit(s', events[1..], hit, norm);
    }
  }

  /** The commit is closed at most once: when an ending event arrives, the log
      is the session's Modify intents followed by exactly one Revert (cancel) or
      one Push("Renumber pads") (activate, Enter, double-click); when none
      arrives, it holds only Modify intents. */
  lemma RunClosesCommitOnce(s: Session, events: seq<Event>, hit: Point -> seq<nat>, norm: Point -> nat)
    requires HitsInRange(hit, |s.numbering.pads|)
    requires OnlyModifies(s.numbering.commit)
    ensures var c := RunSpec(s, events, hit, norm).numbering.commit; var k := FirstEnd(events);
      && s.numbering.commit <= c
      && (k == |events| ==> OnlyModifies(c))
      && (k < |events| ==> |c| > 0 && c[|c| - 1] == Closing(events[k].kind) && OnlyModifies(c[..|c| - 1]))
  {
    RunExtendsCommit(s, events, hit, norm);
    if FirstEnd(events) == |events| {
      RunWithoutEndOnlyModifies(s, events, hit, norm);
    } else {
      RunEndClosesCommit(s, events, hit, norm);
    }
  }

  /** On the first drag or click the old position is the cursor itself, so with
      a norm that is zero on the null vector exactly one point is tested. */
  lemma FirstPointTestsCursorOnly(s: Session, ev: Event, hit: Point -> seq<nat>, norm: Point -> nat)
    requires HitsInRange(hit, |s.numbering.pads|)
    requires s.isFirstPoint && (ev.kind == DragLeft || ev.kind == ClickLeft)
    requires norm(Point(0, 0)) == 0
    ensures Candidates(ev.cursor, ev.cursor, hit, norm) == AdjacentUnique(hit(ev.cursor))
    ensures AllPadsIn(AdjacentUnique(hit(ev.cursor)), |s.numbering.pads|)
    ensures var r := Step(s, ev, hit, norm);
      && r.numbering == VisitAll(s.numbering, AdjacentUnique(hit(ev.cursor)), ev.kind == ClickLeft)
      && r.oldCursorPos == ev.cursor && !r.isFirstPoint
  {
    var c := ev.cursor;
    assert Sub(c, c) == Point(0, 0);
    NoMoveSamplesCursorOnly(c, SearchStep);
    assert SamplePoints(c, c, norm(Sub(c, c)), SearchStep) == [c];
    calc {
      HitsAlong([c], hit);
      HitsAlong([c][..0], hit) + hit(c);
      { assert [c][..0] == []; }
      hit(c);
    }
    CandidatesInRange(c, c, hit, norm, |s.numbering.pads|);
  }

  /** The session object: the locals of EnumeratePads that live across events,
      over the board's pad array. */
  class RenumberSession {
    const prefix: string
    const pads: array<Pad>
    var seqPadNum: int
    var storedPadNumbers: seq<int>
    var oldNames: map<string, NameRecord>
    var commit: seq<CommitOp>
    var oldCursorPos: Point
    var isFirstPoint: bool
    ghost const startNumber: int
    ghost const initialNames: seq<string>

    function NumberingState(): Numbering
      reads this, pads
    {
      Numbering(prefix, seqPadNum, storedPadNumbers, oldNames, pads[..], commit)
    }

    function State(): Session
      reads this, pads
    {
      Session(NumberingState(), oldCursorPos, isFirstPoint)
    }

    ghost predicate Valid()
      reads this, pads
    {
      Invariant(NumberingState(), startNumber, initialNames)
    }

    /** Lines 258-270, once the selection has been cleared. The invariant
        holds from the start when no pad carries the selected flag. */
    constructor (pads: array<Pad>, prefix: string, startNumber: int)
      ensures this.pads == pads && this.prefix == prefix
      ensures State() == Session(Start(prefix, startNumber, pads[..]), Point(0, 0), true)
      ensures (forall i | 0 <= i < pads.Length :: !pads[i].selected) ==> Valid()
    {
      this.prefix := prefix;
      this.pads := pads;
      seqPadNum := startNumber;
      storedPadNumbers := [];
      oldNames := map[];
      commit := [];
      oldCursorPos := Point(0, 0);
      isFirstPoint := true;
      this.startNumber := startNumber;
      initialNames := NamesOf(pads[..]);
      new;
      if forall i | 0 <= i < pads.Length :: !pads[i].selected {
        StartIsConsistent(prefix, startNumber, pads[..]);
      }
    }

    /** Lines 336-362: number an unselected pad. */
    method AssignPad(i: nat)
      requires i < pads.Length
      modifies this, pads
      ensures NumberingState() == Assign(old(NumberingState()), i)
      ensures oldCursorPos == old(oldCursorPos) && isFirstPoint == old(isFirstPoint)
    {
      ghost var n := NumberingState();
      commit := commit + [Modify(i)];
      var newval: int;
      if |storedPadNumbers| > 0 {
        newval := storedPadNumbers[0];
        storedPadNumbers := storedPadNumbers[1..];
      } else {
        newval := seqPadNum;
        seqPadNum := seqPadNum + 1;
      }
      var newName := PadNames.PadName(prefix, newval);
      oldNames := oldNames[newName := NameRecord(newval, pads[i].name)];
      pads[i] := pads[i].(name := newName, selected := true);
      assert pads[..] == n.pads[i := n.pads[i].(name := newName, selected := true)];
    }

    /** Lines 364-383: give a clicked, selected pad back. */
    method ReleasePad(i: nat)
      requires i < pads.Length
      modifies this, pads
      ensures NumberingState() == Release(old(NumberingState()), i)
      ensures oldCursorPos == old(oldCursorPos) && isFirstPoint == old(isFirstPoint)
    {
      ghost var n := NumberingState();
      var name := pads[i].name;
      if name in oldNames {
        var rec := oldNames[name];
        storedPadNumbers := storedPadNumbers + [rec.number];
        pads[i] := pads[i].(name := rec.previous);
        oldNames := oldNames - {name};
        pads[i] := pads[i].(selected := false);
        assert pads[..] == n.pads[i := n.pads[i].(name := rec.previous, selected := false)];
      } else {
        pads[i] := pads[i].(selected := false);
        assert pads[..] == n.pads[i := n.pads[i].(selected := false)];
      }
    }

    /** Lines 334-384 for one pad of the collected list. */
    method AssignOrRelease(i: nat, isClick: bool)
      requires i < pads.Length
      modifies this, pads
      ensures old(Valid()) ==> Valid()
      ensures NumberingState() == Visit(old(NumberingState()), i, isClick)
      ensures oldCursorPos == old(oldCursorPos) && isFirstPoint == old(isFirstPoint)
    {
      if Valid() {
        VisitKeepsInvariant(NumberingState(), startNumber, initialNames, i, isClick);
      }
      if !pads[i].selected {
        AssignPad(i);
      } else if isClick {
        ReleasePad(i);
      }
    }

    /** Line 332: visit the collected pads in order. */
    method VisitPads(selectedPads: seq<nat>, isClick: bool)
      requires AllPadsIn(selectedPads, pads.Length)
      modifies this, pads
      ensures old(Valid()) ==> Valid()
      ensures NumberingState() == VisitAll(old(NumberingState()), selectedPads, isClick)
      ensures oldCursorPos == old(oldCursorPos) && isFirstPoint == old(isFirstPoint)
    {
      var k := 0;
      while k < |selectedPads|
        invariant 0 <= k <= |selectedPads|
        invariant old(Valid()) ==> Valid()
        invariant AllPadsIn(selectedPads[k..], pads.Length)
        invariant VisitAll(NumberingState(), selectedPads[k..], isClick)
                  == VisitAll(old(NumberingState()), selectedPads, isClick)
        invariant oldCursorPos == old(oldCursorPos) && isFirstPoint == old(isFirstPoint)
      {
        AssignOrRelease(selectedPads[k], isClick);
        assert selectedPads[k..][1..] == selectedPads[k + 1..];
        k := k + 1;
      }
    }

    /** Lines 302-385: a drag or click numbers or gives back the pads hit
        along the move from the previous cursor position. */
    method Sweep(ev: Event, hit: Point -> seq<nat>, norm: Point -> nat)
      requires HitsInRange(hit, pads.Length) && (ev.kind == DragLeft || ev.kind == ClickLeft)
      modifies this, pads
      ensures old(Valid()) ==> Valid()
      ensures NumberingState() == Step(old(State()), ev, hit, norm).numbering && !isFirstPoint
    {
      var cursorPos := ev.cursor;
      if isFirstPoint {
        oldCursorPos := cursorPos;
        isFirstPoint := false;
      }
      var distance := norm(Sub(cursorPos, oldCursorPos));
      var selectedPads := CollectPads(oldCursorPos, cursorPos, distance, hit);
      CandidatesInRange(oldCursorPos, cursorPos, hit, norm, pads.Length);
      VisitPads(selectedPads, ev.kind == ClickLeft);
    }

    /** One turn of the `while( Wait() )` loop; `done` is the `break`. */
    method HandleEvent(ev: Event, hit: Point -> seq<nat>, norm: Point -> nat) returns (done: bool)
      requires HitsInRange(hit, pads.Length)
      modifies this, pads
      ensures old(Valid()) ==> Valid()
      ensures State() == Step(old(State()), ev, hit, norm)
      ensures done == Ends(ev.kind)
    {
      done := false;
      if ev.kind == CancelInteractive {
        // The selection tool holds no pad during the session, so clearing it
        // changes nothing here; the host reverts the commit.
        if Valid() {
          CloseKeepsInvariant(NumberingState(), startNumber, initialNames, Revert);
        }
        commit := commit + [Revert];
        done := true;
      } else if ev.kind == Activate {
        if Valid() {
          CloseKeepsInvariant(NumberingState(), startNumber, initialNames, Push(RenumberMessage));
        }
        commit := commit + [Push(RenumberMessage)];
        done := true;
      } else if ev.kind == DragLeft || ev.kind == ClickLeft {
        Sweep(ev, hit, norm);
      } else if ev.kind == KeyPressed(WXK_RETURN) || ev.kind == DblClickLeft {
        if Valid() {
          CloseKeepsInvariant(NumberingState(), startNumber, initialNames, Push(RenumberMessage));
        }
        commit := commit + [Push(RenumberMessage)];
        done := true;
      } else if ev.kind == ClickRight {
        // The context menu is the host's business.
      } else {
        // Passed on to other tools.
      }
      if !done {
        oldCursorPos := ev.cursor;
      }
    }

    /** Lines 278-408: handle the events until one ends the session or none is left. */
    method Run(events: seq<Event>, hit: Point -> seq<nat>, norm: Point -> nat)
      requires HitsInRange(hit, pads.Length)
      modifies this, pads
      ensures old(Valid()) ==> Valid()
      ensures State() == RunSpec(old(State()), events, hit, norm)
    {
      var j := 0;
      var done := false;
      while j < |events| && !done
        invariant 0 <= j <= |events|
        invariant old(Valid()) ==> Valid()
        invariant done ==> State() == RunSpec(old(State()), events, hit, norm)
        invariant !done ==> RunSpec(State(), events[j..], hit, norm) == RunSpec(old(State()), events, hit, norm)
        decreases |events| - j
      {
        assert events[j..][0] == events[j] && events[j..][1..] == events[j + 1..];
        done := HandleEvent(events[j], hit, norm);
        j := j + 1;
      }
    }
  }
}
