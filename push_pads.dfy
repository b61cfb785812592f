/** doPushPadProperties (pcbnew/tools/pad_tool.cpp:140-188): copy the settings
    of a source pad onto the matching pads of the board. */
module PushPads {
  import opened BoardModel

  /** The optional filters of the push dialog. */
  datatype PushFilters = PushFilters(shape: bool, orient: bool, layer: bool, padType: bool)

  /** Lines 154-158: the footprint at `m` is considered when it is the source
      pad's footprint, or when same footprints are wanted and its FPID matches. */
  function ModuleInScope(modules: seq<Footprint>, m: nat, srcModule: nat, sameFootprints: bool): (r: bool)
    requires m < |modules| && srcModule < |modules|
    ensures m == srcModule ==> r
    ensures !sameFootprints ==> (r <==> m == srcModule)
  {
    (sameFootprints || m == srcModule) && modules[m].fpid == modules[srcModule].fpid
  }

  /** Lines 162-182: the pad passes every enabled filter. Orientations are
      compared relative to the owning footprint. */
  function PadPasses(footprint: Footprint, pad: Pad, srcModule: Footprint, src: Pad, f: PushFilters): (r: bool)
    ensures footprint == srcModule && pad == src ==> r
    ensures f == PushFilters(false, false, false, false) ==> r
  {
    && (!f.shape || pad.shape == src.shape)
    && (!f.orient || pad.orientation - footprint.orientation == src.orientation - srcModule.orientation)
    && (!f.layer || pad.layers == src.layers)
    && (!f.padType || pad.attribute == src.attribute)
    && (!(f.padType && pad.attribute == Conn) || pad.aperture == src.aperture)
  }

  /** Whether the pad at position `k` of footprint `m` receives the settings. */
  function ShouldPush(modules: seq<Footprint>, pads: seq<Pad>, m: nat, k: nat,
                      srcModule: nat, src: Pad, sameFootprints: bool, f: PushFilters): (r: bool)
    requires m < |modules| && srcModule < |modules| && k < |modules[m].pads|
    requires PadsOfModuleIn(modules, m, |pads|)
    ensures m == srcModule && pads[modules[m].pads[k]] == src ==> r
    ensures f == PushFilters(false, false, false, false) ==> (r <==> ModuleInScope(modules, m, srcModule, sameFootprints))
  {
    && ModuleInScope(modules, m, srcModule, sameFootprints)
    && PadPasses(modules[m], pads[modules[m].pads[k]], modules[srcModule], src, f)
  }

  /** Footprint `m` lists only pads of the board. */
  predicate PadsOfModuleIn(modules: seq<Footprint>, m: nat, padCount: nat)
    requires m < |modules|
  {
    forall k | 0 <= k < |modules[m].pads| :: modules[m].pads[k] < padCount
  }

  /** The pads among the first `count` of footprint `m` that pass the filters, in order. */
  function ModulePushLog(modules: seq<Footprint>, pads: seq<Pad>, m: nat, count: nat,
                         srcModule: nat, src: Pad, f: PushFilters): (r: seq<nat>)
    requires m < |modules| && srcModule < |modules| && count <= |modules[m].pads|
    requires PadsOfModuleIn(modules, m, |pads|)
    ensures forall x | x in r :: x in modules[m].pads[..count]
  {
    if count == 0 then []
    else
      var rest := ModulePushLog(modules, pads, m, count - 1, srcModule, src, f);
      var p := modules[m].pads[count - 1];
      assert forall x | x in modules[m].pads[..count - 1] :: x in modules[m].pads[..count];
      if PadPasses(modules[m], pads[p], modules[srcModule], src, f) then rest + [p] else rest
  }

  /** The pads that the outer loop has registered with commit.Modify after the
      first `count` footprints, in order. */
  function PushLog(modules: seq<Footprint>, pads: seq<Pad>, count: nat,
                   srcModule: nat, src: Pad, sameFootprints: bool, f: PushFilters): (r: seq<nat>)
    requires count <= |modules| && srcModule < |modules|
    requires forall m | 0 <= m < |modules| :: PadsOfModuleIn(modules, m, |pads|)
    ensures forall x | x in r :: exists m | 0 <= m < count && x in modules[m].pads ::
      ModuleInScope(modules, m, srcModule, sameFootprints)
  {
    if count == 0 then []
    else
      var last := count - 1;
      assert modules[last].pads[..|modules[last].pads|] == modules[last].pads;
      PushLog(modules, pads, count - 1, srcModule, src, sameFootprints, f)
      + (if ModuleInScope(modules, count - 1, srcModule, sameFootprints)
         then ModulePushLog(modules, pads, count - 1, |modules[count - 1].pads|, srcModule, src, f)
         else [])
  }

  /** Lines 140-188: register and update every matching pad. `src` is the
      source pad's settings, `importSettings` stands for ImportSettingsFrom and
      `commitIn` is the commit the caller passes. Each matching pad is
      registered with a Modify intent just before it changes. */
  method DoPushPadProperties(modules: seq<Footprint>, pads: array<Pad>, srcModule: nat, src: Pad,
                             sameFootprints: bool, f: PushFilters, importSettings: (Pad, Pad) -> Pad,
                             commitIn: seq<CommitOp>)
    returns (commit: seq<CommitOp>)
    requires srcModule < |modules|
    requires BoardWellFormed(modules, pads.Length)
    modifies pads
    ensures forall m | 0 <= m < |modules| :: PadsOfModuleIn(modules, m, pads.Length)
    ensures commit == commitIn + Modifies(PushLog(modules, old(pads[..]), |modules|, srcModule, src, sameFootprints, f))
    ensures forall p | 0 <= p < pads.Length ::
      pads[p] == if p in PushLog(modules, old(pads[..]), |modules|, srcModule, src, sameFootprints, f)
                 then importSettings(old(pads[p]), src) else old(pads[p])
  {
    ghost var before := pads[..];
    ghost var modified: seq<nat> := [];
    commit := commitIn;
    var m := 0;
    while m < |modules|
      invariant 0 <= m <= |modules|
      invariant modified == PushLog(modules, before, m, srcModule, src, sameFootprints, f)
      invariant forall x | x in modified :: InModules(modules, m, x)
      invariant pads[..] == Applied(before, modified, src, importSettings)
      invariant commit == commitIn + Modifies(modified)
    {
      PushModuleStep(modules, before, m, srcModule, src, sameFootprints, f, modified, commitIn);
      if !sameFootprints && m != srcModule {
        m := m + 1;
        continue;
      }
      if modules[m].fpid != modules[srcModule].fpid {
        m := m + 1;
        continue;
      }
      NotRegisteredYet(modules, pads.Length, m, modified);
      FootprintPadsDistinct(modules, pads.Length, m);
      ghost var added;
      commit, added := PushFootprintPads(modules, pads, m, srcModule, src, f, importSettings, before, modified, commit);
      modified := modified + added;
      m := m + 1;
    }
  }

  /** One turn of the outer loop, as values: a footprint out of scope adds
      nothing, one in scope adds its passing pads to the log and the commit. */
  lemma PushModuleStep(modules: seq<Footprint>, before: seq<Pad>, m: nat, srcModule: nat, src: Pad,
                       sameFootprints: bool, f: PushFilters, modified: seq<nat>, commitIn: seq<CommitOp>)
    requires m < |modules| && srcModule < |modules|
    requires forall j | 0 <= j < |modules| :: PadsOfModuleIn(modules, j, |before|)
    requires modified == PushLog(modules, before, m, srcModule, src, sameFootprints, f)
    ensures var added := ModulePushLog(modules, before, m, |modules[m].pads|, srcModule, src, f);
      && (ModuleInScope(modules, m, srcModule, sameFootprints) ==>
            && PushLog(modules, before, m + 1, srcModule, src, sameFootprints, f) == modified + added
            && commitIn + Modifies(modified) + Modifies(added) == commitIn + Modifies(modified + added))
      && (!ModuleInScope(modules, m, srcModule, sameFootprints) ==>
            PushLog(modules, before, m + 1, srcModule, src, sameFootprints, f) == modified)
  {
    var added := ModulePushLog(modules, before, m, |modules[m].pads|, srcModule, src, f);
    ModifiesConcat(modified, added);
    assert modified + [] == modified;
  }

  /** The Modify intents that register the listed pads, one per pad, in order. */
  function Modifies(list: seq<nat>): (r: seq<CommitOp>)
    ensures |r| == |list|
  {
    if list == [] then [] else Modifies(list[..|list| - 1]) + [Modify(list[|list| - 1])]
  }

  lemma ModifiesSnoc(c: seq<CommitOp>, list: seq<nat>, p: nat)
    ensures c + Modifies(list) + [Modify(p)] == c + Modifies(list + [p])
  {
    assert (list + [p])[..|list|] == list;
  }

  lemma {:induction false} ModifiesConcat(a: seq<nat>, b: seq<nat>)
    ensures Modifies(a + b) == Modifies(a) + Modifies(b)
    decreases |b|
  {
    if b == [] {
      assert a + b == a;
    } else {
      var init := b[..|b| - 1];
      ModifiesConcat(a, init);
      assert (a + b)[..|a + b| - 1] == a + init;
    }
  }

  /** The board after the listed pads received the source's settings. */
  function Applied(before: seq<Pad>, list: seq<nat>, src: Pad, importSettings: (Pad, Pad) -> Pad): (r: seq<Pad>)
    ensures |r| == |before|
    ensures forall p | 0 <= p < |before| :: r[p] == if p in list then importSettings(before[p], src) else before[p]
  {
    seq(|before|, p requires 0 <= p < |before| => if p in list then importSettings(before[p], src) else before[p])
  }

  lemma AppliedAppend(before: seq<Pad>, list: seq<nat>, p: nat, src: Pad, importSettings: (Pad, Pad) -> Pad)
    requires p < |before| && p !in list
    ensures Applied(before, list + [p], src, importSettings)
            == Applied(before, list, src, importSettings)[p := importSettings(before[p], src)]
  {
  }

  /** One turn of the inner loop, as values: the log grows by the pad exactly
      when it passes, and then the board and the commit grow with it. */
  lemma PushOneStep(modules: seq<Footprint>, before: seq<Pad>, m: nat, k: nat, srcModule: nat, src: Pad,
                    f: PushFilters, importSettings: (Pad, Pad) -> Pad,
                    registered: seq<nat>, added: seq<nat>, commitIn: seq<CommitOp>)
    requires m < |modules| && srcModule < |modules| && k < |modules[m].pads|
    requires PadsOfModuleIn(modules, m, |before|)
    requires added == ModulePushLog(modules, before, m, k, srcModule, src, f)
    requires modules[m].pads[k] !in registered + added
    ensures var p := modules[m].pads[k];
      var passes := PadPasses(modules[m], before[p], modules[srcModule], src, f);
      && ModulePushLog(modules, before, m, k + 1, srcModule, src, f) == (if passes then added + [p] else added)
      && (passes ==>
            && Applied(before, registered + (added + [p]), src, importSettings)
               == Applied(before, registered + added, src, importSettings)[p := importSettings(before[p], src)]
            && commitIn + Modifies(added) + [Modify(p)] == commitIn + Modifies(added + [p]))
  {
    var p := modules[m].pads[k];
    assert registered + (added + [p]) == registered + added + [p];
    AppliedAppend(before, registered + added, p, src, importSettings);
    ModifiesSnoc(commitIn, added, p);
  }

  /** Lines 160-186: the inner loop over the pads of footprint `m`, appending
      to the pads already registered. */
  method PushFootprintPads(modules: seq<Footprint>, pads: array<Pad>, m: nat, srcModule: nat, src: Pad,
                           f: PushFilters, importSettings: (Pad, Pad) -> Pad,
                           ghost before: seq<Pad>, ghost registered: seq<nat>, commitIn: seq<CommitOp>)
    returns (commit: seq<CommitOp>, ghost added: seq<nat>)
    requires m < |modules| && srcModule < |modules| && |before| == pads.Length
    requires PadsOfModuleIn(modules, m, |before|)
    requires forall x | x in registered :: InModules(modules, m, x)
    requires forall k | 0 <= k < |modules[m].pads| :: modules[m].pads[k] !in registered
    requires forall j, k | 0 <= j < k < |modules[m].pads| :: modules[m].pads[j] != modules[m].pads[k]
    requires pads[..] == Applied(before, registered, src, importSettings)
    modifies pads
    ensures added == ModulePushLog(modules, before, m, |modules[m].pads|, srcModule, src, f)
    ensures commit == commitIn + Modifies(added)
    ensures forall x | x in registered + added :: InModules(modules, m + 1, x)
    ensures pads[..] == Applied(before, registered + added, src, importSettings)
  {
    var footprint := modules[m];
    commit := commitIn;
    added := [];
    var k := 0;
    while k < |footprint.pads|
      invariant 0 <= k <= |footprint.pads|
      invariant added == ModulePushLog(modules, before, m, k, srcModule, src, f)
      invariant commit == commitIn + Modifies(added)
      invariant pads[..] == Applied(before, registered + added, src, importSettings)
    {
      var p := footprint.pads[k];
      assert p !in footprint.pads[..k];
      assert p !in registered + added;
      var pad := pads[p];
      assert pad == before[p];
      PushOneStep(modules, before, m, k, srcModule, src, f, importSettings, registered, added, commitIn);
      if PadPasses(footprint, pad, modules[srcModule], src, f) {
        ghost var cur := pads[..];
        commit := commit + [Modify(p)];
        added := added + [p];
        pads[p] := importSettings(pad, src);
        assert pads[..] == cur[p := importSettings(pad, src)];
      }
      k := k + 1;
    }
    forall x | x in registered + added ensures InModules(modules, m + 1, x) {
      if x !in registered {
        assert x in footprint.pads[..k];
        var j :| 0 <= j < k && footprint.pads[j] == x;
      }
    }
  }

  /** `x` is listed by one of the first `count` footprints. */
  ghost predicate InModules(modules: seq<Footprint>, count: nat, x: nat)
    requires count <= |modules|
  {
    exists m, k | 0 <= m < count && 0 <= k < |modules[m].pads| :: modules[m].pads[k] == x
  }

  /** On a well-formed board no pad of footprint `m` is listed by an earlier footprint. */
  lemma NotRegisteredYet(modules: seq<Footprint>, padCount: nat, m: nat, seen: seq<nat>)
    requires BoardWellFormed(modules, padCount)
    requires m < |modules|
    requires forall x | x in seen :: InModules(modules, m, x)
    ensures forall k | 0 <= k < |modules[m].pads| :: modules[m].pads[k] !in seen
  {
    forall k, x | 0 <= k < |modules[m].pads| && x in seen ensures x != modules[m].pads[k] {
      var m', k' :| 0 <= m' < m && 0 <= k' < |modules[m'].pads| && modules[m'].pads[k'] == x;
      assert m' != m;
    }
  }

  /** On a well-formed board a footprint lists each pad once. */
  lemma FootprintPadsDistinct(modules: seq<Footprint>, padCount: nat, m: nat)
    requires BoardWellFormed(modules, padCount)
    requires m < |modules|
    ensures forall j, k | 0 <= j < k < |modules[m].pads| :: modules[m].pads[j] != modules[m].pads[k]
  {
  }

  // ---- Properties of the push ----

  /** A sequence without repeated entries. */
  predicate Distinct(s: seq<nat>)
  {
    forall i, j | 0 <= i < j < |s| :: s[i] != s[j]
  }

  lemma {:induction false} ModulePushLogMembership(modules: seq<Footprint>, pads: seq<Pad>, m: nat, count: nat,
                                                   srcModule: nat, src: Pad, f: PushFilters, x: nat)
    requires m < |modules| && srcModule < |modules| && count <= |modules[m].pads|
    requires PadsOfModuleIn(modules, m, |pads|)
    ensures x in ModulePushLog(modules, pads, m, count, srcModule, src, f) <==>
      exists k | 0 <= k < count :: modules[m].pads[k] == x && PadPasses(modules[m], pads[x], modules[srcModule], src, f)
    decreases count
  {
    if count > 0 {
      ModulePushLogMembership(modules, pads, m, count - 1, srcModule, src, f, x);
    }
  }

  /** A pad is registered and updated exactly when some footprint lists it and
      it passes the scope and every enabled filter there (lines 151-185). */
  lemma {:induction false} PushLogMembership(modules: seq<Footprint>, pads: seq<Pad>, count: nat,
                                             srcModule: nat, src: Pad, sameFootprints: bool, f: PushFilters, x: nat)
    requires count <= |modules| && srcModule < |modules|
    requires forall m | 0 <= m < |modules| :: PadsOfModuleIn(modules, m, |pads|)
    ensures x in PushLog(modules, pads, count, srcModule, src, sameFootprints, f) <==>
      exists m, k | 0 <= m < count && 0 <= k < |modules[m].pads| ::
        modules[m].pads[k] == x && ShouldPush(modules, pads, m, k, srcModule, src, sameFootprints, f)
    decreases count
  {
    if count > 0 {
      var last := count - 1;
      PushLogMembership(modules, pads, last, srcModule, src, sameFootprints, f, x);
      ModulePushLogMembership(modules, pads, last, |modules[last].pads|, srcModule, src, f, x);
    }
  }

  lemma {:induction false} ModulePushLogDistinct(modules: seq<Footprint>, pads: seq<Pad>, m: nat, count: nat,
                                                 srcModule: nat, src: Pad, f: PushFilters)
    requires m < |modules| && srcModule < |modules| && count <= |modules[m].pads|
    requires BoardWellFormed(modules, |pads|)
    ensures Distinct(ModulePushLog(modules, pads, m, count, srcModule, src, f))
    decreases count
  {
    if count > 0 {
      ModulePushLogDistinct(modules, pads, m, count - 1, srcModule, src, f);
      var rest := ModulePushLog(modules, pads, m, count - 1, srcModule, src, f);
      var p := modules[m].pads[count - 1];
      forall x | x in rest ensures x != p {
        assert x in modules[m].pads[..count - 1];
        var k :| 0 <= k < count - 1 && modules[m].pads[k] == x;
        assert k != count - 1;
      }
      var r := ModulePushLog(modules, pads, m, count, srcModule, src, f);
      if r != rest {
        assert r == rest + [p];
        forall i, j | 0 <= i < j < |r| ensures r[i] != r[j] {
          if j == |rest| {
            assert r[i] in rest;
          } else {
            assert r[i] == rest[i] && r[j] == rest[j];
          }
        }
      }
    }
  }

  /** No pad is registered with commit.Modify twice in one push. */
  lemma {:induction false} PushLogDistinct(modules: seq<Footprint>, pads: seq<Pad>, count: nat,
                                           srcModule: nat, src: Pad, sameFootprints: bool, f: PushFilters)
    requires count <= |modules| && srcModule < |modules|
    requires BoardWellFormed(modules, |pads|)
    ensures Distinct(PushLog(modules, pads, count, srcModule, src, sameFootprints, f))
    decreases count
  {
    if count > 0 {
      var last := count - 1;
      PushLogDistinct(modules, pads, last, srcModule, src, sameFootprints, f);
      if ModuleInScope(modules, last, srcModule, sameFootprints) {
        var front := PushLog(modules, pads, last, srcModule, src, sameFootprints, f);
        var back := ModulePushLog(modules, pads, last, |modules[last].pads|, srcModule, src, f);
        ModulePushLogDistinct(modules, pads, last, |modules[last].pads|, srcModule, src, f);
        forall x | x in front ensures x !in back {
          PushLogMembership(modules, pads, last, srcModule, src, sameFootprints, f, x);
          var m, k :| 0 <= m < last && 0 <= k < |modules[m].pads| && modules[m].pads[k] == x;
          forall k' | 0 <= k' < |modules[last].pads| ensures modules[last].pads[k'] != x {
            assert m != last;
          }
        }
        var log := front + back;
        forall i, j | 0 <= i < j < |log| ensures log[i] != log[j] {
          if j < |front| {
          } else if i >= |front| {
            assert log[i] == back[i - |front|] && log[j] == back[j - |front|];
          } else {
            assert log[i] in front && log[j] in back;
          }
        }
      }
    }
  }

  /** The source pad itself always receives the settings. */
  lemma SourcePadIsPushed(modules: seq<Footprint>, pads: seq<Pad>, srcModule: nat, k: nat,
                          sameFootprints: bool, f: PushFilters)
    requires srcModule < |modules| && k < |modules[srcModule].pads|
    requires forall m | 0 <= m < |modules| :: PadsOfModuleIn(modules, m, |pads|)
    requires modules[srcModule].pads[k] < |pads|
    ensures var s := modules[srcModule].pads[k];
      s in PushLog(modules, pads, |modules|, srcModule, pads[s], sameFootprints, f)
  {
    var s := modules[srcModule].pads[k];
    PushLogMembership(modules, pads, |modules|, srcModule, pads[s], sameFootprints, f, s);
    assert ShouldPush(modules, pads, srcModule, k, srcModule, pads[s], sameFootprints, f);
  }

  /** Without "same footprints" only the source pad's own footprint is touched;
      with it, only footprints of the same FPID. */
  lemma PushStaysInScope(modules: seq<Footprint>, pads: seq<Pad>, srcModule: nat, src: Pad,
                         sameFootprints: bool, f: PushFilters, x: nat)
    requires srcModule < |modules|
    requires forall m | 0 <= m < |modules| :: PadsOfModuleIn(modules, m, |pads|)
    requires x in PushLog(modules, pads, |modules|, srcModule, src, sameFootprints, f)
    ensures exists m | 0 <= m < |modules| && x in modules[m].pads ::
      modules[m].fpid == modules[srcModule].fpid && (sameFootprints || m == srcModule)
  {
    PushLogMembership(modules, pads, |modules|, srcModule, src, sameFootprints, f, x);
    var m, k :| 0 <= m < |modules| && 0 <= k < |modules[m].pads| && modules[m].pads[k] == x
      && ShouldPush(modules, pads, m, k, srcModule, src, sameFootprints, f);
    assert x in modules[m].pads;
  }

  lemma {:induction false} AllPassModuleLog(modules: seq<Footprint>, pads: seq<Pad>, m: nat, count: nat,
                                            srcModule: nat, src: Pad)
    requires m < |modules| && srcModule < |modules| && count <= |modules[m].pads|
    requires PadsOfModuleIn(modules, m, |pads|)
    ensures ModulePushLog(modules, pads, m, count, srcModule, src, PushFilters(false, false, false, false))
            == modules[m].pads[..count]
    decreases count
  {
    if count > 0 {
      AllPassModuleLog(modules, pads, m, count - 1, srcModule, src);
      assert modules[m].pads[..count] == modules[m].pads[..count - 1] + [modules[m].pads[count - 1]];
    }
  }

  lemma {:induction false} UnfilteredLogUpTo(modules: seq<Footprint>, pads: seq<Pad>, count: nat, srcModule: nat, src: Pad)
    requires count <= |modules| && srcModule < |modules|
    requires forall m | 0 <= m < |modules| :: PadsOfModuleIn(modules, m, |pads|)
    ensures PushLog(modules, pads, count, srcModule, src, false, PushFilters(false, false, false, false))
            == if count <= srcModule then [] else modules[srcModule].pads
    decreases count
  {
    if count > 0 {
      var none := PushFilters(false, false, false, false);
      var last := count - 1;
      UnfilteredLogUpTo(modules, pads, last, srcModule, src);
      var front := PushLog(modules, pads, last, srcModule, src, false, none);
      if last == srcModule {
        AllPassModuleLog(modules, pads, srcModule, |modules[srcModule].pads|, srcModule, src);
        assert modules[srcModule].pads[..|modules[srcModule].pads|] == modules[srcModule].pads;
        assert front == [];
      } else {
        assert !ModuleInScope(modules, last, srcModule, false);
        assert PushLog(modules, pads, count, srcModule, src, false, none) == front + [];
      }
    }
  }

  /** With every filter off and without "same footprints", the push updates
      exactly the pads of the source pad's footprint, in the footprint's order. */
  lemma UnfilteredPushCoversOwnFootprint(modules: seq<Footprint>, pads: seq<Pad>, srcModule: nat, src: Pad)
    requires srcModule < |modules|
    requires forall m | 0 <= m < |modules| :: PadsOfModuleIn(modules, m, |pads|)
    ensures PushLog(modules, pads, |modules|, srcModule, src, false, PushFilters(false, false, false, false))
            == modules[srcModule].pads
  {
    UnfilteredLogUpTo(modules, pads, |modules|, srcModule, src);
  }
}
