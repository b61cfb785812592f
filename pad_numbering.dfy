/** The numbering state machine of PAD_TOOL::EnumeratePads
    (pcbnew/tools/pad_tool.cpp:258-269, 332-384) as values: what one visit of a
    pad does to the counter, the queue of released numbers, the map of old names,
    the pads and the commit log. The session class in module EnumSession
    performs the same steps in place and is proved equal to these functions. */
module PadNumbering {
  import opened BoardModel
  import opened PadNames

  /** What oldNames maps a session-given name to: the number and the pad's name before. */
  datatype NameRecord = NameRecord(number: int, previous: string)

  datatype Numbering = Numbering(
    prefix: string,
    seqPadNum: int,
    storedPadNumbers: seq<int>,
    oldNames: map<string, NameRecord>,
    pads: seq<Pad>,
    commit: seq<CommitOp>)

  /** The state right after the settings dialog: counter at the start number,
      nothing stored, nothing renamed, an empty commit. */
  function Start(prefix: string, startNumber: int, pads: seq<Pad>): Numbering
  {
    Numbering(prefix, startNumber, [], map[], pads, [])
  }

  /** The number the next assignment uses, which is also the one the status
      popup announces (lines 356-360 and 377). */
  function NextNumber(n: Numbering): (v: int)
    ensures |n.storedPadNumbers| > 0 ==> v == n.storedPadNumbers[0] && v in n.storedPadNumbers
    ensures |n.storedPadNumbers| == 0 ==> v == n.seqPadNum
  {
    if |n.storedPadNumbers| > 0 then n.storedPadNumbers[0] else n.seqPadNum
  }

  /** Lines 337-353: register the pad with the commit, take a number (the oldest
      released one, or a fresh one from the counter), rename the pad, remember
      its number and former name under its new name, and mark it selected. */
  function Assign(n: Numbering, i: nat): (r: Numbering)
    requires i < |n.pads|
    ensures |r.pads| == |n.pads| && r.prefix == n.prefix
  {
    var newval := NextNumber(n);
    var reuse := |n.storedPadNumbers| > 0;
    var newName := PadName(n.prefix, newval);
    n.(seqPadNum := if reuse then n.seqPadNum else n.seqPadNum + 1,
       storedPadNumbers := if reuse then n.storedPadNumbers[1..] else n.storedPadNumbers,
       oldNames := n.oldNames[newName := NameRecord(newval, n.pads[i].name)],
       pads := n.pads[i := n.pads[i].(name := newName, selected := true)],
       commit := n.commit + [Modify(i)])
  }

  /** Lines 368-382: give the number back to the end of the queue, restore the
      former name, forget the entry and unselect the pad. When the entry is
      missing (which the invariant below rules out) only the pad is unselected. */
  function Release(n: Numbering, i: nat): (r: Numbering)
    requires i < |n.pads|
    ensures |r.pads| == |n.pads| && r.prefix == n.prefix
  {
    var name := n.pads[i].name;
    if name in n.oldNames then
      var rec := n.oldNames[name];
      n.(storedPadNumbers := n.storedPadNumbers + [rec.number],
         oldNames := n.oldNames - {name},
         pads := n.pads[i := n.pads[i].(name := rec.previous, selected := false)])
    else
      n.(pads := n.pads[i := n.pads[i].(selected := false)])
  }

  /** Lines 334-384: an unselected pad is numbered; a selected one is given back
      only on a left click; a drag over a selected pad does nothing. */
  function Visit(n: Numbering, i: nat, isClick: bool): (r: Numbering)
    requires i < |n.pads|
    ensures |r.pads| == |n.pads| && r.prefix == n.prefix
  {
    if !n.pads[i].selected then Assign(n, i)
    else if isClick then Release(n, i)
    else n
  }

  /** Line 332: visit every pad of the collected list, in order. */
  function VisitAll(n: Numbering, list: seq<nat>, isClick: bool): (r: Numbering)
    requires AllPadsIn(list, |n.pads|)
    ensures |r.pads| == |n.pads| && r.prefix == n.prefix
    decreases |list|
  {
    if list == [] then n else VisitAll(Visit(n, list[0], isClick), list[1..], isClick)
  }

  // ---- The session invariant ----

  /** Number conservation: every number handed out since `start` and not
      re-issued is in exactly one place, the queue of released numbers or a
      live oldNames entry (keyed by the name it produced); the queue holds no
      number twice and nothing at or above the counter. */
  ghost predicate NumbersConserved(n: Numbering, start: int)
  {
    && start <= n.seqPadNum
    && (forall k | k in n.oldNames ::
          && start <= n.oldNames[k].number < n.seqPadNum
          && k == PadName(n.prefix, n.oldNames[k].number))
    && (forall j | 0 <= j < |n.storedPadNumbers| :: start <= n.storedPadNumbers[j] < n.seqPadNum)
    && (forall j, l | 0 <= j < l < |n.storedPadNumbers| :: n.storedPadNumbers[j] != n.storedPadNumbers[l])
    && (forall v | start <= v < n.seqPadNum ::
          (v in n.storedPadNumbers) != (PadName(n.prefix, v) in n.oldNames))
  }

  /** Name writes and oldNames entries go in pairs: an unselected pad carries
      its name from before the session; a selected pad carries a name with a
      live entry that remembers that original name, and was registered with the
      commit; selected pads have distinct names; every entry belongs to one of them. */
  ghost predicate NamesPaired(n: Numbering, initial: seq<string>)
  {
    && |n.pads| == |initial|
    && (forall i | 0 <= i < |n.pads| && !n.pads[i].selected :: n.pads[i].name == initial[i])
    && (forall i | 0 <= i < |n.pads| && n.pads[i].selected ::
          && n.pads[i].name in n.oldNames
          && n.oldNames[n.pads[i].name].previous == initial[i]
          && Modify(i) in n.commit)
    && (forall i, j | 0 <= i < j < |n.pads| && n.pads[i].selected && n.pads[j].selected ::
          n.pads[i].name != n.pads[j].name)
    && (forall k | k in n.oldNames :: exists i | 0 <= i < |n.pads| :: n.pads[i].selected && n.pads[i].name == k)
  }

  ghost predicate Invariant(n: Numbering, start: int, initial: seq<string>)
  {
    NumbersConserved(n, start) && NamesPaired(n, initial)
  }

  // ---- Lemmas ----

  /** The names of the pads, in board order. */
  function NamesOf(pads: seq<Pad>): (r: seq<string>)
    ensures |r| == |pads| && forall i | 0 <= i < |pads| :: r[i] == pads[i].name
  {
    seq(|pads|, i requires 0 <= i < |pads| => pads[i].name)
  }

  /** The session starts consistent once every pad is unselected. */
  lemma StartIsConsistent(prefix: string, startNumber: int, pads: seq<Pad>)
    requires forall i | 0 <= i < |pads| :: !pads[i].selected
    ensures Invariant(Start(prefix, startNumber, pads), startNumber, NamesOf(pads))
  {
  }

  /** Recording Push or Revert in the commit keeps the invariant. */
  lemma CloseKeepsInvariant(n: Numbering, start: int, initial: seq<string>, op: CommitOp)
    requires Invariant(n, start, initial)
    ensures Invariant(n.(commit := n.commit + [op]), start, initial)
  {
    var r := n.(commit := n.commit + [op]);
    forall i | 0 <= i < |r.pads| && r.pads[i].selected ensures Modify(i) in r.commit {
      assert Modify(i) in n.commit;
    }
  }

  /** The number about to be handed out is in range and its name is not live:
      no selected pad carries it. */
  lemma NextNumberIsFree(n: Numbering, start: int)
    requires NumbersConserved(n, start)
    ensures start <= NextNumber(n) <= n.seqPadNum
    ensures |n.storedPadNumbers| > 0 ==> NextNumber(n) < n.seqPadNum
    ensures PadName(n.prefix, NextNumber(n)) !in n.oldNames
  {
    var v := NextNumber(n);
    if |n.storedPadNumbers| > 0 {
      assert v in n.storedPadNumbers;
    } else if PadName(n.prefix, v) in n.oldNames {
      var k := PadName(n.prefix, v);
      PadNameInjective(n.prefix, v, n.oldNames[k].number);
    }
  }

  /** Assigning a number keeps the invariant. */
  lemma AssignKeepsInvariant(n: Numbering, start: int, initial: seq<string>, i: nat)
    requires Invariant(n, start, initial)
    requires i < |n.pads| && !n.pads[i].selected
    ensures Invariant(Assign(n, i), start, initial)
  {
    AssignConservesNumbers(n, start, initial, i);
    NextNumberIsFree(n, start);
    AssignPairsNames(n, initial, i);
  }

  lemma AssignConservesNumbers(n: Numbering, start: int, initial: seq<string>, i: nat)
    requires Invariant(n, start, initial)
    requires i < |n.pads| && !n.pads[i].selected
    ensures NumbersConserved(Assign(n, i), start)
  {
    var r := Assign(n, i);
    var num := NextNumber(n);
    var newName := PadName(n.prefix, num);
    NextNumberIsFree(n, start);
    forall v | start <= v < r.seqPadNum
      ensures (v in r.storedPadNumbers) != (PadName(r.prefix, v) in r.oldNames)
    {
      if v == num {
        if |n.storedPadNumbers| > 0 {
          assert v !in r.storedPadNumbers by {
            forall l | 0 <= l < |r.storedPadNumbers| ensures r.storedPadNumbers[l] != v {
              assert r.storedPadNumbers[l] == n.storedPadNumbers[l + 1];
            }
          }
        }
      } else {
        PadNameInjective(n.prefix, v, num);
        if |n.storedPadNumbers| > 0 {
          assert n.storedPadNumbers == [num] + r.storedPadNumbers;
        }
      }
    }
    forall j, l | 0 <= j < l < |r.storedPadNumbers|
      ensures r.storedPadNumbers[j] != r.storedPadNumbers[l]
    {
      assert r.storedPadNumbers[j] == n.storedPadNumbers[j + 1];
      assert r.storedPadNumbers[l] == n.storedPadNumbers[l + 1];
    }
    forall j | 0 <= j < |r.storedPadNumbers|
      ensures start <= r.storedPadNumbers[j] < r.seqPadNum
    {
      assert r.storedPadNumbers[j] == n.storedPadNumbers[j + 1];
    }
  }

  lemma AssignPairsNames(n: Numbering, initial: seq<string>, i: nat)
    requires NamesPaired(n, initial)
    requires i < |n.pads| && !n.pads[i].selected
    requires PadName(n.prefix, NextNumber(n)) !in n.oldNames
    ensures NamesPaired(Assign(n, i), initial)
  {
    var r := Assign(n, i);
    var newName := PadName(n.prefix, NextNumber(n));
    AssignKeepsNamesDistinct(n, initial, i);
    forall j | 0 <= j < |r.pads| && r.pads[j].selected
      ensures && r.pads[j].name in r.oldNames
              && r.oldNames[r.pads[j].name].previous == initial[j]
              && Modify(j) in r.commit
    {
      if j != i {
        assert n.pads[j].name != newName;
      }
    }
    forall k | k in r.oldNames
      ensures exists j | 0 <= j < |r.pads| :: r.pads[j].selected && r.pads[j].name == k
    {
      if k == newName {
        assert r.pads[i].selected && r.pads[i].name == k;
      } else {
        var j :| 0 <= j < |n.pads| && n.pads[j].selected && n.pads[j].name == k;
        assert r.pads[j] == n.pads[j];
      }
    }
    assert NamesPaired(r, initial);
  }

  /** The new name is not carried by any selected pad, so selected names stay
      distinct after an assignment. */
  lemma AssignKeepsNamesDistinct(n: Numbering, initial: seq<string>, i: nat)
    requires NamesPaired(n, initial)
    requires i < |n.pads| && !n.pads[i].selected
    requires PadName(n.prefix, NextNumber(n)) !in n.oldNames
    ensures var r := Assign(n, i);
      forall a, b | 0 <= a < b < |r.pads| && r.pads[a].selected && r.pads[b].selected :: r.pads[a].name != r.pads[b].name
  {
    var r := Assign(n, i);
    forall a | 0 <= a < |n.pads| && a != i && n.pads[a].selected
      ensures n.pads[a].name != r.pads[i].name
    {
    }
  }

  /** Giving a number back keeps the invariant. */
  lemma ReleaseKeepsInvariant(n: Numbering, start: int, initial: seq<string>, i: nat)
    requires Invariant(n, start, initial)
    requires i < |n.pads| && n.pads[i].selected
    ensures Invariant(Release(n, i), start, initial)
  {
    ReleaseConservesNumbers(n, start, initial, i);
    ReleasePairsNames(n, initial, i);
  }

  lemma ReleaseConservesNumbers(n: Numbering, start: int, initial: seq<string>, i: nat)
    requires Invariant(n, start, initial)
    requires i < |n.pads| && n.pads[i].selected
    ensures NumbersConserved(Release(n, i), start)
  {
    var r := Release(n, i);
    var name := n.pads[i].name;
    var num := n.oldNames[name].number;
    assert name == PadName(n.prefix, num);
    assert num !in n.storedPadNumbers;
    forall v | start <= v < r.seqPadNum
      ensures (v in r.storedPadNumbers) != (PadName(r.prefix, v) in r.oldNames)
    {
      PadNameInjective(n.prefix, v, num);
    }
    forall j, l | 0 <= j < l < |r.storedPadNumbers|
      ensures r.storedPadNumbers[j] != r.storedPadNumbers[l]
    {
      if l == |n.storedPadNumbers| {
        assert r.storedPadNumbers[j] == n.storedPadNumbers[j];
      }
    }
  }

  lemma ReleasePairsNames(n: Numbering, initial: seq<string>, i: nat)
    requires NamesPaired(n, initial)
    requires i < |n.pads| && n.pads[i].selected
    ensures NamesPaired(Release(n, i), initial)
  {
    var r := Release(n, i);
    forall k | k in r.oldNames
      ensures exists j | 0 <= j < |r.pads| :: r.pads[j].selected && r.pads[j].name == k
    {
      var j :| 0 <= j < |n.pads| && n.pads[j].selected && n.pads[j].name == k;
      assert j != i;
      assert r.pads[j] == n.pads[j];
    }
    assert NamesPaired(r, initial);
  }

  lemma VisitKeepsInvariant(n: Numbering, start: int, initial: seq<string>, i: nat, isClick: bool)
    requires Invariant(n, start, initial)
    requires i < |n.pads|
    ensures Invariant(Visit(n, i, isClick), start, initial)
  {
    if !n.pads[i].selected {
      AssignKeepsInvariant(n, start, initial, i);
    } else if isClick {
      ReleaseKeepsInvariant(n, start, initial, i);
    }
  }

  lemma {:induction false} VisitAllKeepsInvariant(n: Numbering, start: int, initial: seq<string>, list: seq<nat>, isClick: bool)
    requires Invariant(n, start, initial)
    requires AllPadsIn(list, |n.pads|)
    ensures Invariant(VisitAll(n, list, isClick), start, initial)
    decreases |list|
  {
    if list != [] {
      VisitKeepsInvariant(n, start, initial, list[0], isClick);
      VisitAllKeepsInvariant(Visit(n, list[0], isClick), start, initial, list[1..], isClick);
    }
  }

  /** Minting: the number comes from the front of the queue (which is then
      popped) or, with an empty queue, from the counter, which goes up by one.
      The pad gets the prefixed name of the number the popup announced, a name
      no selected pad carries, and oldNames remembers the number and the pad's
      original name under it. No other pad changes. */
  lemma AssignTakesAnnouncedNumber(n: Numbering, start: int, initial: seq<string>, i: nat, isClick: bool)
    requires Invariant(n, start, initial)
    requires i < |n.pads| && !n.pads[i].selected
    ensures var r := Visit(n, i, isClick); var v := NextNumber(n);
      && (|n.storedPadNumbers| > 0 ==>
            v == n.storedPadNumbers[0] && r.storedPadNumbers == n.storedPadNumbers[1..] && r.seqPadNum == n.seqPadNum)
      && (|n.storedPadNumbers| == 0 ==>
            v == n.seqPadNum && r.storedPadNumbers == [] && r.seqPadNum == n.seqPadNum + 1)
      && r.pads[i].name == PadName(n.prefix, v) && r.pads[i].selected
      && r.pads[i] == n.pads[i].(name := PadName(n.prefix, v), selected := true)
      && (forall j | 0 <= j < |n.pads| && n.pads[j].selected :: n.pads[j].name != r.pads[i].name)
      && r.oldNames == n.oldNames[r.pads[i].name := NameRecord(v, initial[i])]
      && |r.oldNames| == |n.oldNames| + 1
      && (forall j | 0 <= j < |n.pads| && j != i :: r.pads[j] == n.pads[j])
      && r.commit == n.commit + [Modify(i)]
  {
    NextNumberIsFree(n, start);
  }

  /** Giving back (a left click on a selected pad): the pad gets its original
      name back and is unselected, the entry of the name it carried goes, and
      the number that name was made from joins the BACK of the queue, so the
      popup keeps announcing the oldest released number. No other pad changes. */
  lemma ReleaseRestoresOriginalName(n: Numbering, start: int, initial: seq<string>, i: nat)
    requires Invariant(n, start, initial)
    requires i < |n.pads| && n.pads[i].selected
    ensures var r := Visit(n, i, true);
      && r.pads[i].name == initial[i] && !r.pads[i].selected
      && r.pads[i] == n.pads[i].(name := initial[i], selected := false)
      && |r.storedPadNumbers| == |n.storedPadNumbers| + 1
      && r.storedPadNumbers[..|n.storedPadNumbers|] == n.storedPadNumbers
      && PadName(n.prefix, r.storedPadNumbers[|n.storedPadNumbers|]) == n.pads[i].name
      && r.storedPadNumbers == n.storedPadNumbers + [n.oldNames[n.pads[i].name].number]
      && r.oldNames == n.oldNames - {n.pads[i].name}
      && n.pads[i].name !in r.oldNames && |r.oldNames| == |n.oldNames| - 1
      && r.seqPadNum == n.seqPadNum
      && NextNumber(r) == (if |n.storedPadNumbers| > 0 then n.storedPadNumbers[0]
                           else r.storedPadNumbers[0])
      && (forall j | 0 <= j < |n.pads| && j != i :: r.pads[j] == n.pads[j])
      && r.commit == n.commit
  {
    var r := Visit(n, i, true);
    assert r.storedPadNumbers[..|n.storedPadNumbers|] == n.storedPadNumbers;
  }

  /** Exactly-once, stated with the entries themselves: a number handed out
      since `start` is either waiting in the queue or is the number of a live
      entry, never both; numbers never handed out are in neither place. */
  lemma NumbersHeldExactlyOnce(n: Numbering, start: int, initial: seq<string>, v: int)
    requires Invariant(n, start, initial)
    ensures start <= v < n.seqPadNum ==>
      (v in n.storedPadNumbers) != (exists k | k in n.oldNames :: n.oldNames[k].number == v)
    ensures !(start <= v < n.seqPadNum) ==>
      v !in n.storedPadNumbers && !(exists k | k in n.oldNames :: n.oldNames[k].number == v)
  {
    if exists k | k in n.oldNames :: n.oldNames[k].number == v {
      var k :| k in n.oldNames && n.oldNames[k].number == v;
      assert k == PadName(n.prefix, v);
    }
    if start <= v < n.seqPadNum && PadName(n.prefix, v) in n.oldNames {
      var k := PadName(n.prefix, v);
      PadNameInjective(n.prefix, v, n.oldNames[k].number);
    }
  }

  /** Capture-before-mutate: every pad whose name differs from its name before
      the session was registered with commit.Modify, so reverting the commit
      restores every renamed pad. */
  lemma RenamedPadsAreRegistered(n: Numbering, start: int, initial: seq<string>, i: nat)
    requires Invariant(n, start, initial)
    requires i < |n.pads| && n.pads[i].name != initial[i]
    ensures Modify(i) in n.commit
  {
  }

  // ---- Drags: a pad is numbered at most once per drag ----

  /** `s` without any occurrence of x. */
  function RemoveAll(s: seq<nat>, x: nat): (r: seq<nat>)
    ensures |r| <= |s|
    ensures forall y :: y in r <==> y in s && y != x
  {
    if s == [] then [] else (if s[0] == x then [] else [s[0]]) + RemoveAll(s[1..], x)
  }

  /** `s` with every repeat removed, first occurrences kept in order. */
  function Dedup(s: seq<nat>): (r: seq<nat>)
    ensures forall y :: y in r <==> y in s
    ensures forall j, l | 0 <= j < l < |r| :: r[j] != r[l]
    decreases |s|
  {
    if s == [] then []
    else
      var rest := Dedup(RemoveAll(s[1..], s[0]));
      assert forall l | 0 <= l < |rest| :: rest[l] in rest && rest[l] != s[0];
      [s[0]] + rest
  }

  /** During a drag, a visit never gives a number back: selected pads stay as
      they are and the visited pad ends selected. */
  lemma DragVisitOnlyAdds(n: Numbering, i: nat)
    requires i < |n.pads|
    ensures var r := Visit(n, i, false);
      && r.pads[i].selected
      && (forall j | 0 <= j < |n.pads| && n.pads[j].selected :: r.pads[j] == n.pads[j])
      && |r.storedPadNumbers| <= |n.storedPadNumbers|
  {
  }

  /** During a drag, every further visit of an already selected pad is a no-op. */
  lemma {:induction false} DragSkipsSelectedPad(n: Numbering, list: seq<nat>, x: nat)
    requires AllPadsIn(list, |n.pads|)
    requires x < |n.pads| && n.pads[x].selected
    ensures AllPadsIn(RemoveAll(list, x), |n.pads|)
    ensures VisitAll(n, list, false) == VisitAll(n, RemoveAll(list, x), false)
    decreases |list|
  {
    if list != [] {
      var y := list[0];
      var rest := RemoveAll(list[1..], x);
      AllPadsInSublist(list, list[1..], |n.pads|);
      AllPadsInSublist(list, RemoveAll(list, x), |n.pads|);
      if y == x {
        assert Visit(n, x, false) == n;
        assert VisitAll(n, list, false) == VisitAll(n, list[1..], false);
        DragSkipsSelectedPad(n, list[1..], x);
        assert RemoveAll(list, x) == rest;
      } else {
        var n' := Visit(n, y, false);
        DragVisitOnlyAdds(n, y);
        DragSkipsSelectedPad(n', list[1..], x);
        assert RemoveAll(list, x) == [y] + rest;
        assert ([y] + rest)[1..] == rest;
      }
    }
  }

  /** A drag that hits pads repeatedly numbers each of them once: it has the
      effect of visiting every hit pad exactly once, in first-hit order. */
  lemma {:induction false} DragIgnoresRepeats(n: Numbering, list: seq<nat>)
    requires AllPadsIn(list, |n.pads|)
    ensures AllPadsIn(Dedup(list), |n.pads|)
    ensures VisitAll(n, list, false) == VisitAll(n, Dedup(list), false)
    decreases |list|
  {
    if list != [] {
      var x := list[0];
      var n' := Visit(n, x, false);
      var rest := RemoveAll(list[1..], x);
      AllPadsInSublist(list, list[1..], |n.pads|);
      AllPadsInSublist(list, rest, |n.pads|);
      AllPadsInSublist(list, Dedup(list), |n.pads|);
      DragVisitOnlyAdds(n, x);
      DragSkipsSelectedPad(n', list[1..], x);
      DragIgnoresRepeats(n', rest);
      assert Dedup(list) == [x] + Dedup(rest);
      assert ([x] + Dedup(rest))[1..] == Dedup(rest);
    }
  }

  /** Over a whole drag, pads selected before keep their name and selection and
      every hit pad ends selected: nothing is given back. */
  lemma {:induction false} DragOnlyAdds(n: Numbering, list: seq<nat>)
    requires AllPadsIn(list, |n.pads|)
    ensures var r := VisitAll(n, list, false);
      && (forall j | 0 <= j < |n.pads| && n.pads[j].selected :: r.pads[j] == n.pads[j])
      && (forall x | x in list :: r.pads[x].selected)
      && |r.storedPadNumbers| <= |n.storedPadNumbers|
    decreases |list|
  {
    if list != [] {
      var n' := Visit(n, list[0], false);
      AllPadsInSublist(list, list[1..], |n.pads|);
      DragVisitOnlyAdds(n, list[0]);
      DragOnlyAdds(n', list[1..]);
    }
  }

  /** Clicks, unlike drags, act on every visit: a click whose collected list
      meets pad a, then b, then a again (a repeat std::list::unique keeps, being
      non-adjacent) numbers a and at once gives its number back. */
  lemma ClickRevisitUndoesNumbering(n: Numbering, start: int, initial: seq<string>, a: nat, b: nat)
    requires Invariant(n, start, initial)
    requires a < |n.pads| && b < |n.pads| && a != b
    requires !n.pads[a].selected && !n.pads[b].selected
    ensures var r := VisitAll(n, [a, b, a], true);
      !r.pads[a].selected && r.pads[a].name == n.pads[a].name && r.pads[b].selected
  {
    var n1 := Visit(n, a, true);
    AssignKeepsInvariant(n, start, initial, a);
    var n2 := Visit(n1, b, true);
    AssignKeepsInvariant(n1, start, initial, b);
    ReleaseRestoresOriginalName(n2, start, initial, a);
    VisitAllOfThree(n, a, b, a, true);
  }

  /** Visiting two lists one after the other is visiting their concatenation. */
  lemma {:induction false} VisitAllConcat(n: Numbering, a: seq<nat>, b: seq<nat>, isClick: bool)
    requires AllPadsIn(a, |n.pads|) && AllPadsIn(b, |n.pads|)
    ensures AllPadsIn(a + b, |n.pads|)
    ensures VisitAll(n, a + b, isClick) == VisitAll(VisitAll(n, a, isClick), b, isClick)
    decreases |a|
  {
    if a == [] {
      assert a + b == b;
    } else {
      AllPadsInSublist(a, a[1..], |n.pads|);
      VisitAllConcat(Visit(n, a[0], isClick), a[1..], b, isClick);
      assert (a + b)[1..] == a[1..] + b;
      assert (a + b)[0] == a[0];
    }
  }

  lemma VisitAllOfThree(n: Numbering, a: nat, b: nat, c: nat, isClick: bool)
    requires a < |n.pads| && b < |n.pads| && c < |n.pads|
    ensures VisitAll(n, [a, b, c], isClick) == Visit(Visit(Visit(n, a, isClick), b, isClick), c, isClick)
  {
    var n1 := Visit(n, a, isClick);
    var n2 := Visit(n1, b, isClick);
    assert VisitAll(n2, [c], isClick) == Visit(n2, c, isClick) by {
      assert [c][1..] == [];
    }
    assert VisitAll(n1, [b, c], isClick) == VisitAll(n2, [c], isClick) by {
      assert [b, c][1..] == [c];
    }
    assert VisitAll(n, [a, b, c], isClick) == VisitAll(n1, [b, c], isClick) by {
      assert [a, b, c][1..] == [b, c];
    }
  }

  // ---- Worked sessions ----

  function NamedPad(name: string): Pad
  {
    Pad(name, false, 0, 0, {}, Standard, false)
  }

  /** Four unselected pads named "1" to "4", prefix "P", start 1. */
  function FourPads(): Numbering
  {
    Start("P", 1, [NamedPad("1"), NamedPad("2"), NamedPad("3"), NamedPad("4")])
  }

  function Numbered(name: string): Pad
  {
    NamedPad(name).(selected := true)
  }

  /** The state after clicking pads 0, 1, 2 of FourPads(). */
  function AfterThreeClicks(): Numbering
  {
    Numbering("P", 4, [], map["P1" := NameRecord(1, "1"), "P2" := NameRecord(2, "2"), "P3" := NameRecord(3, "3")],
              [Numbered("P1"), Numbered("P2"), Numbered("P3"), NamedPad("4")],
              [Modify(0), Modify(1), Modify(2)])
  }

  /** Clicking pads 0, 1, 2 names them P1, P2, P3. */
  lemma FirstThreeClicks()
    ensures VisitAll(FourPads(), [0, 1, 2], true) == AfterThreeClicks()
  {
    VisitAllOfThree(FourPads(), 0, 1, 2, true);
    assert PadName("P", 1) == "P1" && PadName("P", 2) == "P2" && PadName("P", 3) == "P3";
  }

  /** Prefix "P", start 1: clicking pads 0, 1, 2 names them P1, P2, P3;
      clicking pad 1 again gives 2 back; clicking pad 3 then names it P2. */
  lemma CompactnessExample()
    ensures var r := VisitAll(FourPads(), [0, 1, 2, 1, 3], true);
      && r.pads[0].name == "P1" && r.pads[1].name == "2"
      && r.pads[2].name == "P3" && r.pads[3].name == "P2"
      && r.seqPadNum == 4 && r.storedPadNumbers == []
  {
    FirstThreeClicks();
    VisitAllConcat(FourPads(), [0, 1, 2], [1, 3], true);
    assert [0, 1, 2] + [1, 3] == [0, 1, 2, 1, 3];
    ReleaseTwo();
    ReuseTwo();
    assert VisitAll(AfterThreeClicks(), [1, 3], true) == Visit(AfterReleaseTwo(), 3, true) by {
      assert [1, 3][1..] == [3] && [3][1..] == [];
    }
  }

  /** The state after clicking pads 0, 1, 2 and then pad 1 again. */
  function AfterReleaseTwo(): Numbering
  {
    Numbering("P", 4, [2], map["P1" := NameRecord(1, "1"), "P3" := NameRecord(3, "3")],
              [Numbered("P1"), NamedPad("2"), Numbered("P3"), NamedPad("4")],
              [Modify(0), Modify(1), Modify(2)])
  }

  /** The released 2 is taken before the counter: pad 3 becomes P2 and the
      counter stays at 4. */
  lemma ReuseTwo()
    ensures var r := Visit(AfterReleaseTwo(), 3, true);
      && r.pads == [Numbered("P1"), NamedPad("2"), Numbered("P3"), Numbered("P2")]
      && r.seqPadNum == 4 && r.storedPadNumbers == []
  {
    assert PadName("P", 2) == "P2";
  }

  /** Clicking P2 again gives 2 back to the queue and restores the name "2". */
  lemma ReleaseTwo()
    ensures Visit(AfterThreeClicks(), 1, true) == AfterReleaseTwo()
  {
    var s4 := Visit(AfterThreeClicks(), 1, true);
    assert s4.oldNames == map["P1" := NameRecord(1, "1"), "P3" := NameRecord(3, "3")];
  }

  /** Giving back P3 and then P2 queues 3 before 2. */
  lemma ReleaseThreeThenTwo()
    ensures Visit(Visit(AfterThreeClicks(), 2, true), 1, true)
      == Numbering("P", 4, [3, 2], map["P1" := NameRecord(1, "1")],
                   [Numbered("P1"), NamedPad("2"), NamedPad("3"), NamedPad("4")],
                   [Modify(0), Modify(1), Modify(2)])
  {
    var s4 := Visit(AfterThreeClicks(), 2, true);
    assert s4.oldNames == map["P1" := NameRecord(1, "1"), "P2" := NameRecord(2, "2")];
  }

  /** Released numbers are reused oldest first: give back P3, then P2, and the
      next pad clicked is named P3, with 2 still waiting. */
  lemma OldestReleasedReusedFirst()
    ensures var r := VisitAll(FourPads(), [0, 1, 2, 2, 1, 3], true);
      && r.pads[3].name == "P3" && r.storedPadNumbers == [2] && NextNumber(r) == 2
  {
    FirstThreeClicks();
    VisitAllConcat(FourPads(), [0, 1, 2], [2, 1, 3], true);
    assert [0, 1, 2] + [2, 1, 3] == [0, 1, 2, 2, 1, 3];
    VisitAllOfThree(AfterThreeClicks(), 2, 1, 3, true);
    ReleaseThreeThenTwo();
    assert PadName("P", 3) == "P3";
  }
}
