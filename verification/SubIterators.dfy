/** Cursors over the instructions of a component: functions inside modules inside a component,
    with lists of functions to skip. */
module SubIterators {
  import opened Prelude

  /** What a cursor knows about a function: its id and how many instructions it has. */
  datatype Entry = Entry(fid: nat, instrs: nat)

  datatype Visit = Visit(fid: nat, instr: nat)

  datatype FuncAt = FuncAt(curr: nat, num: nat)

  datatype ModAt = ModAt(idx: nat, metadata: seq<Entry>, func: FuncAt, skips: seq<nat>)

  /** Where a cursor stands after a move, and whether it moved to another instruction. */
  datatype Moved<S> = Moved(at: S, ok: bool)

  // ------------------------------------------------------------------------------------
  // One function, one module
  // ------------------------------------------------------------------------------------

  predicate FuncHasNext(f: FuncAt) { f.curr + 1 < f.num }

  function NextInFunc(f: FuncAt): Moved<FuncAt> {
    if FuncHasNext(f) then Moved(f.(curr := f.curr + 1), true) else Moved(f, false)
  }

  /** The first function from position `k` on that is not skipped. */
  function SkipFrom(metadata: seq<Entry>, skips: seq<nat>, k: nat): (r: nat)
    ensures k <= r && (k <= |metadata| ==> r <= |metadata|)
    ensures forall j :: k <= j < r && j < |metadata| ==> metadata[j].fid in skips
    ensures r < |metadata| ==> metadata[r].fid !in skips
    decreases |metadata| - k
  {
    if k < |metadata| && metadata[k].fid in skips then SkipFrom(metadata, skips, k + 1) else k
  }

  function CurrFunc(m: ModAt): Entry {
    if m.idx < |m.metadata| then m.metadata[m.idx] else Entry(0, 0)
  }

  predicate HasNextFunction(m: ModAt) { m.idx + 1 < |m.metadata| }

  predicate ModHasNext(m: ModAt) { FuncHasNext(m.func) || HasNextFunction(m) }

  /** The instruction count is that of the very first function, even when that one is skipped. */
  function NewMod(metadata: seq<Entry>, skips: seq<nat>): ModAt {
    if metadata == [] then ModAt(0, metadata, FuncAt(0, 0), skips)
    else ModAt(SkipFrom(metadata, skips, 0), metadata, FuncAt(0, metadata[0].instrs), skips)
  }

  function ResetMod(m: ModAt): ModAt {
    if m.metadata == [] then m.(idx := 0, func := FuncAt(0, 0))
    else
      var there := m.(idx := SkipFrom(m.metadata, m.skips, 0));
      there.(func := FuncAt(0, CurrFunc(there).instrs))
  }

  function FunctionAfter(m: ModAt): Moved<ModAt> {
    if !HasNextFunction(m) then Moved(m, false)
    else
      var there := m.(idx := SkipFrom(m.metadata, m.skips, m.idx + 1));
      if there.idx < |m.metadata| then Moved(there.(func := FuncAt(0, CurrFunc(there).instrs)), true)
      else Moved(there, false)
  }

  function NextInMod(m: ModAt): Moved<ModAt> {
    if FuncHasNext(m.func) then Moved(m.(func := NextInFunc(m.func).at), true) else FunctionAfter(m)
  }

  class FuncSubIterator {
    var currInstr: nat
    var numInstr: nat

    function Now(): FuncAt
      reads this
    {
      FuncAt(currInstr, numInstr)
    }

    constructor (numInstr: nat)
      ensures Now() == FuncAt(0, numInstr)
    {
      this.currInstr, this.numInstr := 0, numInstr;
    }

    method Reset(numInstr: nat)
      modifies this
      ensures Now() == FuncAt(0, numInstr)
    {
      this.currInstr, this.numInstr := 0, numInstr;
    }

    method Next() returns (ok: bool)
      modifies this
      ensures Moved(Now(), ok) == NextInFunc(old(Now()))
    {
      if currInstr + 1 >= numInstr { return false; }
      currInstr := currInstr + 1;
      return true;
    }
  }

  class ModuleSubIterator {
    var currIdx: nat
    var metadata: seq<Entry>
    var funcIterator: FuncSubIterator
    var skipFuncs: seq<nat>

    function Now(): ModAt
      reads this, funcIterator
    {
      ModAt(currIdx, metadata, funcIterator.Now(), skipFuncs)
    }

    constructor (metadata: seq<Entry>, skipFuncs: seq<nat>)
      ensures Now() == NewMod(metadata, skipFuncs) && fresh(funcIterator)
    {
      this.currIdx, this.metadata, this.skipFuncs := 0, metadata, skipFuncs;
      var count := if metadata == [] then 0 else metadata[0].instrs;
      this.funcIterator := new FuncSubIterator(count);
      new;
      if metadata != [] { HandleSkips(); }
    }

    method HandleSkips()
      requires currIdx < |metadata|
      modifies this`currIdx
      ensures currIdx == SkipFrom(metadata, skipFuncs, old(currIdx))
    {
      var currFid := metadata[currIdx].fid;
      while currFid in skipFuncs
        invariant currIdx < |metadata| && currFid == metadata[currIdx].fid
        invariant SkipFrom(metadata, skipFuncs, currIdx) == SkipFrom(metadata, skipFuncs, old(currIdx))
        decreases |metadata| - currIdx
      {
        currIdx := currIdx + 1;
        if currIdx >= |metadata| { break; }
        currFid := metadata[currIdx].fid;
      }
    }

    method Reset()
      modifies this`currIdx, funcIterator
      ensures Now() == ResetMod(old(Now()))
    {
      currIdx := 0;
      if metadata == [] {
        funcIterator.Reset(0);
        return;
      }
      HandleSkips();
      funcIterator.Reset(if currIdx < |metadata| then metadata[currIdx].instrs else 0);
    }

    method ResetFromCompIterator(metadata: seq<Entry>)
      modifies this`currIdx, this`metadata, funcIterator
      ensures Now() == ResetMod(old(Now()).(metadata := metadata))
    {
      this.metadata := metadata;
      Reset();
    }

    method NextFunction() returns (ok: bool)
      modifies this`currIdx, this`funcIterator
      ensures Moved(Now(), ok) == FunctionAfter(old(Now()))
      ensures funcIterator == old(funcIterator) || fresh(funcIterator)
    {
      if currIdx + 1 >= |metadata| { return false; }
      currIdx := currIdx + 1;
      HandleSkips();
      if currIdx >= |metadata| { return false; }
      funcIterator := new FuncSubIterator(metadata[currIdx].instrs);
      return true;
    }

    method Next() returns (ok: bool)
      modifies this`currIdx, this`funcIterator, funcIterator
      ensures Moved(Now(), ok) == NextInMod(old(Now()))
      ensures funcIterator == old(funcIterator) || fresh(funcIterator)
    {
      if funcIterator.currInstr + 1 < funcIterator.numInstr {
        ok := funcIterator.Next();
      } else {
        ok := NextFunction();
      }
    }
  }

  /** The instructions a user of the cursor sees: the current one, then on for as long as the
      cursor says it moved. */
  function ModRun(m: ModAt): seq<Visit>
    decreases |m.metadata| - m.idx, m.func.num - m.func.curr
  {
    if m.idx >= |m.metadata| then []
    else
      [Visit(CurrFunc(m).fid, m.func.curr)]
      + (var next := NextInMod(m); if next.ok then ModRun(next.at) else [])
  }

  // The simple form: function after function, instruction after instruction

  function Max(a: nat, b: nat): nat { if a < b then b else a }

  /** A function without instructions still takes one step. */
  function Steps(instrs: nat): nat { Max(1, instrs) }

  function FuncVisits(fid: nat, instrs: nat): (r: seq<Visit>)
    ensures |r| == Steps(instrs)
  {
    seq(Steps(instrs), (i: nat) => Visit(fid, i))
  }

  /** What is left of a function at instruction `from`. */
  function Rest(fid: nat, from: nat, num: nat): seq<Visit>
    decreases num - from
  {
    [Visit(fid, from)] + (if from + 1 < num then Rest(fid, from + 1, num) else [])
  }

  lemma {:induction false} RestIs(fid: nat, from: nat, num: nat)
    ensures |Rest(fid, from, num)| == if from < num then num - from else 1
    ensures forall i :: 0 <= i < |Rest(fid, from, num)| ==> Rest(fid, from, num)[i] == Visit(fid, from + i)
    decreases num - from
  {
    if from + 1 < num { RestIs(fid, from + 1, num); }
  }

  lemma RestFromStart(fid: nat, num: nat)
    ensures Rest(fid, 0, num) == FuncVisits(fid, num)
  {
    RestIs(fid, 0, num);
  }

  /** All unskipped functions from position `k` on. */
  function Visits(metadata: seq<Entry>, skips: seq<nat>, k: nat): seq<Visit>
    decreases |metadata| - k
  {
    if k >= |metadata| then []
    else
      (if metadata[k].fid in skips then [] else FuncVisits(metadata[k].fid, metadata[k].instrs))
      + Visits(metadata, skips, k + 1)
  }

  lemma {:induction false} SkippedAddNothing(metadata: seq<Entry>, skips: seq<nat>, k: nat)
    ensures Visits(metadata, skips, SkipFrom(metadata, skips, k)) == Visits(metadata, skips, k)
    decreases |metadata| - k
  {
    if k < |metadata| && metadata[k].fid in skips { SkippedAddNothing(metadata, skips, k + 1); }
  }

  /** The rest of the current function, then the functions after it. */
  predicate RunsOn(m: ModAt) {
    ModRun(m) == Rest(CurrFunc(m).fid, m.func.curr, m.func.num) + Visits(m.metadata, m.skips, m.idx + 1)
  }

  /** From anywhere in a module the run goes on to the end. */
  lemma {:induction false} RunFromHere(m: ModAt)
    requires m.idx < |m.metadata|
    ensures RunsOn(m)
    decreases |m.metadata| - m.idx, m.func.num - m.func.curr
  {
    if NextInMod(m).ok { RunFromHere(NextInMod(m).at); }
    if FuncHasNext(m.func) { WithinFunction(m); } else { IntoNextFunction(m); }
  }

  lemma WithinFunction(m: ModAt)
    requires m.idx < |m.metadata| && FuncHasNext(m.func) && RunsOn(NextInMod(m).at)
    ensures RunsOn(m)
  {
    var here, rest := [Visit(CurrFunc(m).fid, m.func.curr)], Rest(CurrFunc(m).fid, m.func.curr + 1, m.func.num);
    var later := Visits(m.metadata, m.skips, m.idx + 1);
    assert here + (rest + later) == here + rest + later;
  }

  lemma IntoNextFunction(m: ModAt)
    requires m.idx < |m.metadata| && !FuncHasNext(m.func)
    requires NextInMod(m).ok ==> RunsOn(NextInMod(m).at)
    ensures RunsOn(m)
  {
    var here, later := [Visit(CurrFunc(m).fid, m.func.curr)], Visits(m.metadata, m.skips, m.idx + 1);
    assert Rest(CurrFunc(m).fid, m.func.curr, m.func.num) == here;
    LaterFunctions(m);
    if !NextInMod(m).ok { assert here + [] == here; }
  }

  lemma LaterFunctions(m: ModAt)
    requires m.idx < |m.metadata| && !FuncHasNext(m.func)
    ensures NextInMod(m).ok && RunsOn(NextInMod(m).at) ==>
              ModRun(NextInMod(m).at) == Visits(m.metadata, m.skips, m.idx + 1)
    ensures !NextInMod(m).ok ==> Visits(m.metadata, m.skips, m.idx + 1) == []
  {
    var k := SkipFrom(m.metadata, m.skips, m.idx + 1);
    SkippedAddNothing(m.metadata, m.skips, m.idx + 1);
    FunctionAfterIs(m);
    if NextInMod(m).ok { UnskippedVisits(m.metadata, m.skips, k); }
  }

  lemma FunctionAfterIs(m: ModAt)
    requires m.idx < |m.metadata|
    ensures var k := SkipFrom(m.metadata, m.skips, m.idx + 1);
            if k < |m.metadata| then
              FunctionAfter(m) == Moved(m.(idx := k, func := FuncAt(0, m.metadata[k].instrs)), true)
            else !FunctionAfter(m).ok
  {
  }

  lemma UnskippedVisits(metadata: seq<Entry>, skips: seq<nat>, k: nat)
    requires k < |metadata| && metadata[k].fid !in skips
    ensures Visits(metadata, skips, k) == Rest(metadata[k].fid, 0, metadata[k].instrs) + Visits(metadata, skips, k + 1)
  {
    RestFromStart(metadata[k].fid, metadata[k].instrs);
  }

  /** After a reset, whatever the skip list, the run is every instruction of every unskipped
      function, once and in order. */
  lemma ResetRunVisitsEverything(m: ModAt)
    ensures ModRun(ResetMod(m)) == Visits(m.metadata, m.skips, 0)
  {
    var there := ResetMod(m);
    SkippedAddNothing(m.metadata, m.skips, 0);
    if there.idx < |m.metadata| {
      RunFromHere(there);
      RestFromStart(CurrFunc(there).fid, there.func.num);
    }
  }

  /** A fresh cursor gets the length of its first function right, or has nothing to visit. */
  predicate StartsRight(metadata: seq<Entry>, skips: seq<nat>) {
    var first := SkipFrom(metadata, skips, 0);
    first < |metadata| ==> Steps(metadata[0].instrs) == Steps(metadata[first].instrs)
  }

  /** A fresh cursor visits the same exactly when the first function it visits takes as many
      steps as the very first one; in particular when that one is not skipped. */
  lemma NewRunVisitsEverything(metadata: seq<Entry>, skips: seq<nat>)
    ensures ModRun(NewMod(metadata, skips)) == Visits(metadata, skips, 0) <==> StartsRight(metadata, skips)
    ensures metadata != [] && metadata[0].fid !in skips ==> StartsRight(metadata, skips)
  {
    var m := NewMod(metadata, skips);
    SkippedAddNothing(metadata, skips, 0);
    if m.idx < |metadata| {
      RunFromHere(m);
      RestFromStart(CurrFunc(m).fid, m.func.num);
      var later := Visits(metadata, skips, m.idx + 1);
      assert |ModRun(m)| == Steps(m.func.num) + |later|;
      assert |Visits(metadata, skips, 0)| == Steps(CurrFunc(m).instrs) + |later|;
      if Steps(m.func.num) == Steps(CurrFunc(m).instrs) {
        assert FuncVisits(CurrFunc(m).fid, m.func.num) == FuncVisits(CurrFunc(m).fid, CurrFunc(m).instrs);
      }
    }
  }

  /** A skipped first function of two instructions makes a fresh cursor run past the end of the
      one-instruction function behind it. */
  lemma NewRunOvershoots()
    ensures var metadata := [Entry(7, 2), Entry(8, 1)];
            && Visits(metadata, [7], 0) == [Visit(8, 0)]
            && ModRun(NewMod(metadata, [7])) == [Visit(8, 0), Visit(8, 1)]
  {
    var metadata := [Entry(7, 2), Entry(8, 1)];
    assert Visits(metadata, [7], 2) == [];
    assert Visits(metadata, [7], 1) == FuncVisits(8, 1) + [];
    assert SkipFrom(metadata, [7], 0) == 1 by { assert SkipFrom(metadata, [7], 1) == 1; }
    RunFromHere(NewMod(metadata, [7]));
    RestFromStart(8, 2);
  }

  /** Once a module cursor says it did not move, it never moves again. */
  lemma FinishedStaysFinished(m: ModAt)
    requires !NextInMod(m).ok
    ensures NextInMod(NextInMod(m).at) == NextInMod(m)
  {
  }

  /** What is visited, as a set: the instructions of the unskipped functions, exactly. */
  lemma {:induction false} VisitsExactly(metadata: seq<Entry>, skips: seq<nat>, k: nat, v: Visit)
    ensures v in Visits(metadata, skips, k)
       <==> exists j ::
              k <= j < |metadata| && metadata[j].fid == v.fid && v.fid !in skips && v.instr < Steps(metadata[j].instrs)
    decreases |metadata| - k
  {
    if k < |metadata| {
      VisitsExactly(metadata, skips, k + 1, v);
      var e := metadata[k];
      assert v in FuncVisits(e.fid, e.instrs) <==> v.fid == e.fid && v.instr < Steps(e.instrs) by {
        if v.fid == e.fid && v.instr < Steps(e.instrs) { assert FuncVisits(e.fid, e.instrs)[v.instr] == v; }
      }
      if v in Visits(metadata, skips, k + 1) {
        var j :| k + 1 <= j < |metadata| && metadata[j].fid == v.fid && v.fid !in skips
                 && v.instr < Steps(metadata[j].instrs);
      }
    }
  }

  /** When function ids are distinct, no instruction is visited twice. */
  lemma {:induction false} VisitedOnce(metadata: seq<Entry>, skips: seq<nat>, k: nat)
    requires forall i, j :: 0 <= i < j < |metadata| ==> metadata[i].fid != metadata[j].fid
    ensures forall a, b :: 0 <= a < b < |Visits(metadata, skips, k)| ==>
              Visits(metadata, skips, k)[a] != Visits(metadata, skips, k)[b]
    decreases |metadata| - k
  {
    if k < |metadata| {
      VisitedOnce(metadata, skips, k + 1);
      var rest := Visits(metadata, skips, k + 1);
      forall v | v in rest ensures v.fid != metadata[k].fid {
        VisitsExactly(metadata, skips, k + 1, v);
      }
    }
  }

  // ------------------------------------------------------------------------------------
  // A whole component
  // ------------------------------------------------------------------------------------

  /** What a component cursor knows about one core module. */
  datatype ModInfo = ModInfo(metadata: seq<Entry>, skips: seq<nat>)

  datatype CompAt = CompAt(curr: nat, mod: ModAt, mods: seq<ModInfo>)

  function FreshMod(x: ModInfo): ModAt { NewMod(x.metadata, x.skips) }

  function NewComp(curr: nat, mods: seq<ModInfo>): CompAt
    requires mods != [] ==> curr < |mods|
  {
    CompAt(curr, if mods == [] then NewMod([], []) else FreshMod(mods[curr]), mods)
  }

  /** The module cursor goes back to the first module's functions but keeps the skip list of the
      module it was in. */
  function ResetComp(c: CompAt): CompAt
    requires c.mods != []
  {
    c.(curr := 0, mod := ResetMod(c.mod.(metadata := c.mods[0].metadata)))
  }

  predicate End(c: CompAt) { c.curr == |c.mods| }

  predicate HasCurr(c: CompAt) { !End(c) && c.mod.idx < |c.mod.metadata| }

  function ModuleAfter(c: CompAt): Moved<CompAt> {
    var m := c.curr + 1;
    if m < |c.mods| then Moved(c.(curr := m, mod := FreshMod(c.mods[m])), true) else Moved(c.(curr := m), false)
  }

  /** Asking the module cursor whether anything is left counts skipped functions too. */
  function NextInComp(c: CompAt): Moved<CompAt> {
    if ModHasNext(c.mod) then Moved(c.(mod := NextInMod(c.mod).at), NextInMod(c.mod).ok) else ModuleAfter(c)
  }

  class ComponentSubIterator {
    var currMod: nat
    var numMods: nat
    var modIterator: ModuleSubIterator
    var metadata: map<nat, seq<Entry>>
    var skipFuncs: map<nat, seq<nat>>

    /** Every module has metadata; the code aborts where it does not. */
    ghost predicate Valid()
      reads this
    {
      forall m :: 0 <= m < numMods ==> m in metadata
    }

    function SkipsOf(m: nat): seq<nat>
      reads this
    {
      if m in skipFuncs then skipFuncs[m] else []
    }

    ghost function Modules(): (r: seq<ModInfo>)
      requires Valid()
      reads this
    {
      seq(numMods, m requires 0 <= m < numMods && Valid() reads this => ModInfo(metadata[m], SkipsOf(m)))
    }

    ghost function Now(): CompAt
      requires Valid()
      reads this, modIterator, modIterator.funcIterator
    {
      CompAt(currMod, modIterator.Now(), Modules())
    }

    constructor (currMod: nat, numMods: nat, metadata: map<nat, seq<Entry>>, skipFuncs: map<nat, seq<nat>>)
      requires forall m :: 0 <= m < numMods ==> m in metadata
      requires numMods > 0 ==> currMod < numMods
      ensures this.numMods == numMods && this.metadata == metadata && this.skipFuncs == skipFuncs
      ensures Valid() && Now() == NewComp(currMod, Modules())
      ensures fresh(modIterator) && fresh(modIterator.funcIterator)
    {
      this.currMod, this.numMods, this.metadata, this.skipFuncs := currMod, numMods, metadata, skipFuncs;
      if numMods == 0 {
        modIterator := new ModuleSubIterator([], []);
      } else {
        modIterator := new ModuleSubIterator(metadata[currMod],
                                             if currMod in skipFuncs then skipFuncs[currMod] else []);
      }
    }

    method Reset()
      requires Valid() && numMods > 0
      modifies this`currMod, modIterator, modIterator.funcIterator
      ensures Valid() && Now() == ResetComp(old(Now()))
      ensures modIterator.funcIterator == old(modIterator.funcIterator)
    {
      currMod := 0;
      modIterator.ResetFromCompIterator(metadata[0]);
    }

    method NextModule() returns (ok: bool)
      requires Valid()
      modifies this`currMod, this`modIterator
      ensures Valid() && Moved(Now(), ok) == ModuleAfter(old(Now()))
      ensures modIterator == old(modIterator) || (fresh(modIterator) && fresh(modIterator.funcIterator))
    {
      ghost var mods := Modules();
      currMod := currMod + 1;
      assert Modules() == mods;
      if currMod >= numMods { return false; }
      modIterator := new ModuleSubIterator(metadata[currMod], SkipsOf(currMod));
      assert Modules() == mods;
      return true;
    }

    method Next() returns (ok: bool)
      requires Valid()
      modifies this`currMod, this`modIterator, modIterator, modIterator.funcIterator
      ensures Valid() && Moved(Now(), ok) == NextInComp(old(Now()))
      ensures modIterator == old(modIterator) || fresh(modIterator)
      ensures modIterator.funcIterator == old(modIterator.funcIterator) || fresh(modIterator.funcIterator)
    {
      if ModHasNext(modIterator.Now()) {
        ok := modIterator.Next();
      } else {
        ok := NextModule();
      }
    }
  }

  datatype Place = Place(mod: nat, visit: Visit)

  function Here(c: CompAt): Visit { Visit(CurrFunc(c.mod).fid, c.mod.func.curr) }

  function CompRun(c: CompAt): seq<Place>
    requires c.curr <= |c.mods|
    decreases |c.mods| - c.curr, |c.mod.metadata| - c.mod.idx, c.mod.func.num - c.mod.func.curr
  {
    if !HasCurr(c) then []
    else [Place(c.curr, Here(c))] + (var next := NextInComp(c); if next.ok then CompRun(next.at) else [])
  }

  function Tagged(m: nat, vs: seq<Visit>): (r: seq<Place>)
    ensures |r| == |vs| && forall i :: 0 <= i < |r| ==> r[i] == Place(m, vs[i])
  {
    seq(|vs|, i requires 0 <= i < |vs| => Place(m, vs[i]))
  }

  /** The current module's functions are not exhausted, but all that are left are skipped. */
  predicate LeavesSkipped(m: ModAt) {
    m.idx + 1 < |m.metadata| && m.metadata[|m.metadata| - 1].fid in m.skips
  }

  /** What follows the current module: nothing if its last function is skipped. */
  function AfterModule(c: CompAt): seq<Place> {
    if LeavesSkipped(c.mod) || c.curr + 1 >= |c.mods| then [] else CompRun(ModuleAfter(c).at)
  }

  predicate CompRunsOn(c: CompAt)
    requires c.curr <= |c.mods|
  {
    CompRun(c) == Tagged(c.curr, ModRun(c.mod)) + AfterModule(c)
  }

  /** The run of a component: the rest of the current module, then what follows it. */
  lemma {:induction false} CompRunFromHere(c: CompAt)
    requires HasCurr(c) && c.curr < |c.mods|
    ensures CompRunsOn(c)
    decreases |c.mod.metadata| - c.mod.idx, c.mod.func.num - c.mod.func.curr
  {
    if NextInMod(c.mod).ok {
      CompRunFromHere(NextInComp(c).at);
      InsideModule(c);
    } else {
      LeavingModule(c);
    }
  }

  lemma TaggedCons(m: nat, v: Visit, vs: seq<Visit>, rest: seq<Place>)
    ensures Tagged(m, [v] + vs) + rest == [Place(m, v)] + (Tagged(m, vs) + rest)
  {
    assert Tagged(m, [v] + vs) == [Place(m, v)] + Tagged(m, vs);
    ConcatAssoc([Place(m, v)], Tagged(m, vs), rest);
  }

  /** What follows the module does not depend on where in the module the cursor is. */
  lemma SameAfter(c: CompAt)
    requires HasCurr(c) && NextInMod(c.mod).ok
    ensures AfterModule(NextInComp(c).at) == AfterModule(c)
  {
    var next := NextInComp(c).at;
    assert c.curr + 1 < |c.mods| ==> ModuleAfter(next) == ModuleAfter(c);
    assert LeavesSkipped(next.mod) == LeavesSkipped(c.mod) by {
      assert next.mod.idx == c.mod.idx || c.mod.metadata[next.mod.idx].fid !in c.mod.skips;
    }
  }

  lemma InsideModule(c: CompAt)
    requires HasCurr(c) && c.curr < |c.mods| && NextInMod(c.mod).ok && CompRunsOn(NextInComp(c).at)
    ensures CompRunsOn(c)
  {
    SameAfter(c);
    var next := NextInComp(c).at;
    assert CompRun(c) == [Place(c.curr, Here(c))] + CompRun(next);
    assert ModRun(c.mod) == [Here(c)] + ModRun(next.mod);
    TaggedCons(c.curr, Here(c), ModRun(next.mod), AfterModule(c));
  }

  lemma LeavingModule(c: CompAt)
    requires HasCurr(c) && c.curr < |c.mods| && !NextInMod(c.mod).ok
    ensures CompRunsOn(c)
  {
    assert LeavesSkipped(c.mod) <==> ModHasNext(c.mod);
    assert CompRun(c) == [Place(c.curr, Here(c))] + AfterModule(c);
    assert ModRun(c.mod) == [Here(c)];
    TaggedCons(c.curr, Here(c), [], AfterModule(c));
    assert [Here(c)] + [] == [Here(c)] && Tagged(c.curr, []) + AfterModule(c) == AfterModule(c);
  }

  /** Modules after which a component run stops early. */
  predicate Blocks(x: ModInfo) {
    x.metadata == [] || x.metadata[|x.metadata| - 1].fid in x.skips
  }

  function FreshRun(mods: seq<ModInfo>, m: nat): seq<Place>
    requires m < |mods|
  {
    CompRun(NewComp(m, mods))
  }

  /** What a fresh run visits behind module `m`. */
  function Behind(mods: seq<ModInfo>, m: nat): seq<Place>
    requires m < |mods|
  {
    if Blocks(mods[m]) || m + 1 == |mods| then [] else FreshRun(mods, m + 1)
  }

  lemma FreshRunUnfolds(mods: seq<ModInfo>, m: nat)
    requires m < |mods|
    ensures FreshRun(mods, m) == Tagged(m, ModRun(FreshMod(mods[m]))) + Behind(mods, m)
  {
    var c := NewComp(m, mods);
    if HasCurr(c) {
      CompRunFromHere(c);
      assert AfterModule(c) == Behind(mods, m);
    }
  }

  /** The simple form: module after module. */
  function Everything(mods: seq<ModInfo>, m: nat): seq<Place>
    decreases |mods| - m
  {
    if m >= |mods| then [] else Tagged(m, Visits(mods[m].metadata, mods[m].skips, 0)) + Everything(mods, m + 1)
  }

  predicate AllSkipped(x: ModInfo) {
    forall e :: e in x.metadata ==> e.fid in x.skips
  }

  predicate NothingFrom(mods: seq<ModInfo>, m: nat) {
    forall j :: m <= j < |mods| ==> AllSkipped(mods[j])
  }

  /** Every module up to the first that blocks starts right, and nothing is left behind that one. */
  predicate RunsThrough(mods: seq<ModInfo>, m: nat)
    decreases |mods| - m
  {
    m < |mods| ==>
      && StartsRight(mods[m].metadata, mods[m].skips)
      && if Blocks(mods[m]) then NothingFrom(mods, m + 1) else RunsThrough(mods, m + 1)
  }

  ghost predicate TagsFrom(m: nat, ps: seq<Place>) {
    forall p :: p in ps ==> p.mod >= m
  }

  /** Where the visits of one module end. */
  lemma TagsEnd(m: nat, a: seq<Visit>, x: seq<Place>, i: nat)
    requires TagsFrom(m + 1, x)
    requires i < |Tagged(m, a) + x|
    ensures (Tagged(m, a) + x)[i].mod == m <==> i < |a|
  {
    if i >= |a| { assert (Tagged(m, a) + x)[i] == x[i - |a|]; }
  }

  /** Visits of different modules do not mix. */
  lemma TagsSplit(m: nat, a: seq<Visit>, b: seq<Visit>, x: seq<Place>, y: seq<Place>)
    requires TagsFrom(m + 1, x) && TagsFrom(m + 1, y)
    ensures Tagged(m, a) + x == Tagged(m, b) + y <==> a == b && x == y
  {
    var p, q := Tagged(m, a) + x, Tagged(m, b) + y;
    if p == q {
      var least := if |a| < |b| then |a| else |b|;
      if least < |p| {
        TagsEnd(m, a, x, least);
        TagsEnd(m, b, y, least);
      }
      assert |a| == |b|;
      assert p[..|a|] == Tagged(m, a) && q[..|a|] == Tagged(m, b);
      forall i | 0 <= i < |a| ensures a[i] == b[i] { assert Tagged(m, a)[i] == Tagged(m, b)[i]; }
      assert x == p[|a|..] && y == q[|b|..];
    }
  }

  lemma {:induction false} EverythingTags(mods: seq<ModInfo>, m: nat)
    ensures TagsFrom(m, Everything(mods, m))
    ensures Everything(mods, m) == [] <==> NothingFrom(mods, m)
    decreases |mods| - m
  {
    if m < |mods| {
      EverythingTags(mods, m + 1);
      NothingVisited(mods[m]);
      var here := Tagged(m, Visits(mods[m].metadata, mods[m].skips, 0));
      assert Everything(mods, m) == [] <==> here == [] && Everything(mods, m + 1) == [];
    }
  }

  lemma NothingVisited(x: ModInfo)
    ensures Visits(x.metadata, x.skips, 0) == [] <==> AllSkipped(x)
  {
    var vs := Visits(x.metadata, x.skips, 0);
    if vs == [] {
      forall e | e in x.metadata ensures e.fid in x.skips {
        var j :| 0 <= j < |x.metadata| && x.metadata[j] == e;
        VisitsExactly(x.metadata, x.skips, 0, Visit(e.fid, 0));
      }
    } else {
      VisitsExactly(x.metadata, x.skips, 0, vs[0]);
    }
  }

  lemma {:induction false} FreshRunTags(mods: seq<ModInfo>, m: nat)
    requires m < |mods|
    ensures TagsFrom(m, FreshRun(mods, m))
    decreases |mods| - m
  {
    FreshRunUnfolds(mods, m);
    if m + 1 < |mods| { FreshRunTags(mods, m + 1); }
  }

  lemma FirstModuleSplits(mods: seq<ModInfo>, m: nat)
    requires m < |mods|
    ensures FreshRun(mods, m) == Everything(mods, m) <==>
              StartsRight(mods[m].metadata, mods[m].skips) && Behind(mods, m) == Everything(mods, m + 1)
  {
    FreshRunUnfolds(mods, m);
    NewRunVisitsEverything(mods[m].metadata, mods[m].skips);
    EverythingTags(mods, m + 1);
    if m + 1 < |mods| { FreshRunTags(mods, m + 1); }
    TagsSplit(m, ModRun(FreshMod(mods[m])), Visits(mods[m].metadata, mods[m].skips, 0), Behind(mods, m),
              Everything(mods, m + 1));
  }

  /** A fresh component run is the concatenation of its modules' visits exactly when every module
      up to the first that blocks starts right and every function behind that one is skipped. */
  lemma {:induction false} FreshRunVisitsEverything(mods: seq<ModInfo>, m: nat)
    requires m < |mods|
    ensures FreshRun(mods, m) == Everything(mods, m) <==> RunsThrough(mods, m)
    decreases |mods| - m
  {
    FirstModuleSplits(mods, m);
    EverythingTags(mods, m + 1);
    if m + 1 < |mods| { FreshRunVisitsEverything(mods, m + 1); }
  }

  predicate EndsUnskipped(x: ModInfo) {
    x.metadata != [] && x.metadata[0].fid !in x.skips && x.metadata[|x.metadata| - 1].fid !in x.skips
  }

  /** In particular when every module has functions and skips neither its first nor its last. */
  lemma {:induction false} EndsUnskippedRunThrough(mods: seq<ModInfo>, m: nat)
    requires forall i :: m <= i < |mods| ==> EndsUnskipped(mods[i])
    ensures RunsThrough(mods, m)
    decreases |mods| - m
  {
    if m < |mods| {
      EndsUnskippedRunThrough(mods, m + 1);
      NewRunVisitsEverything(mods[m].metadata, mods[m].skips);
    }
  }

  /** Going back to the start: the run visits the first module under the skip list of the module
      the cursor was in; it visits everything exactly when that list skips the same functions and
      the rest runs through. */
  lemma ResetRunOfComponent(c: CompAt)
    requires c.mods != []
    ensures var first := ModInfo(c.mods[0].metadata, c.mod.skips);
            CompRun(ResetComp(c)) == Everything(c.mods, 0) <==>
              && (forall e :: e in first.metadata ==> (e.fid in first.skips <==> e.fid in c.mods[0].skips))
              && if Blocks(first) then NothingFrom(c.mods, 1) else RunsThrough(c.mods, 1)
  {
    var md := c.mods[0].metadata;
    ResetRunUnfolds(c);
    EverythingTags(c.mods, 1);
    if |c.mods| > 1 {
      FreshRunTags(c.mods, 1);
      FreshRunVisitsEverything(c.mods, 1);
    }
    TagsSplit(0, Visits(md, c.mod.skips, 0), Visits(md, c.mods[0].skips, 0), AfterReset(c), Everything(c.mods, 1));
    SameVisits(md, c.mod.skips, c.mods[0].skips);
  }

  function AfterReset(c: CompAt): seq<Place>
    requires c.mods != []
  {
    if Blocks(ModInfo(c.mods[0].metadata, c.mod.skips)) || |c.mods| == 1 then [] else FreshRun(c.mods, 1)
  }

  lemma ResetRunUnfolds(c: CompAt)
    requires c.mods != []
    ensures CompRun(ResetComp(c)) == Tagged(0, Visits(c.mods[0].metadata, c.mod.skips, 0)) + AfterReset(c)
  {
    var r := ResetComp(c);
    ResetRunVisitsEverything(c.mod.(metadata := c.mods[0].metadata));
    if HasCurr(r) {
      CompRunFromHere(r);
      assert AfterModule(r) == AfterReset(c);
    }
  }

  /** Two skip lists give the same visits exactly when they skip the same functions. */
  lemma SameVisits(metadata: seq<Entry>, s: seq<nat>, t: seq<nat>)
    ensures Visits(metadata, s, 0) == Visits(metadata, t, 0)
       <==> forall e :: e in metadata ==> (e.fid in s <==> e.fid in t)
  {
    if Visits(metadata, s, 0) == Visits(metadata, t, 0) {
      forall e | e in metadata ensures e.fid in s <==> e.fid in t {
        var j :| 0 <= j < |metadata| && metadata[j] == e;
        VisitsExactly(metadata, s, 0, Visit(e.fid, 0));
        VisitsExactly(metadata, t, 0, Visit(e.fid, 0));
      }
    }
    if forall e :: e in metadata ==> (e.fid in s <==> e.fid in t) { SameSkips(metadata, s, t, 0); }
  }

  lemma {:induction false} SameSkips(metadata: seq<Entry>, s: seq<nat>, t: seq<nat>, k: nat)
    requires forall e :: e in metadata ==> (e.fid in s <==> e.fid in t)
    ensures Visits(metadata, s, k) == Visits(metadata, t, k)
    decreases |metadata| - k
  {
    if k < |metadata| {
      assert metadata[k] in metadata;
      SameSkips(metadata, s, t, k + 1);
    }
  }

  /** A module whose last function is skipped hides the modules behind it. */
  lemma SkippedLastFunctionStopsTheRun()
    ensures var mods := [ModInfo([Entry(1, 1), Entry(2, 1)], [2]), ModInfo([Entry(3, 1)], [])];
            FreshRun(mods, 0) != Everything(mods, 0) && Place(1, Visit(3, 0)) !in FreshRun(mods, 0)
  {
    var mods := [ModInfo([Entry(1, 1), Entry(2, 1)], [2]), ModInfo([Entry(3, 1)], [])];
    assert Blocks(mods[0]);
    assert mods[1].metadata[0] in mods[1].metadata;
    assert !AllSkipped(mods[1]) && !NothingFrom(mods, 1);
    assert !RunsThrough(mods, 0);
    FreshRunVisitsEverything(mods, 0);
    FreshRunUnfolds(mods, 0);
    assert FreshRun(mods, 0) == Tagged(0, ModRun(FreshMod(mods[0]))) + [];
  }

  /** Reset from its second module, this cursor skips the only function of the first. */
  lemma ResetKeepsForeignSkips()
    ensures var mods := [ModInfo([Entry(1, 1)], []), ModInfo([Entry(2, 1)], [1])];
            var c := NewComp(1, mods);
            FreshRun(mods, 0) == Everything(mods, 0) && CompRun(ResetComp(c)) != Everything(mods, 0)
  {
    var mods := [ModInfo([Entry(1, 1)], []), ModInfo([Entry(2, 1)], [1])];
    var c := NewComp(1, mods);
    EndsUnskippedRunThrough(mods, 0);
    FreshRunVisitsEverything(mods, 0);
    assert mods[0].metadata[0] in mods[0].metadata;
    ResetRunOfComponent(c);
  }

  /** A component cursor does not stay finished: asked once more, it steps past the end and again
      claims to stand on an instruction whenever its last module cursor does. */
  lemma FinishedCursorWakesUp(c: CompAt)
    requires End(c) && !ModHasNext(c.mod)
    ensures !HasCurr(c) && !NextInComp(c).ok
    ensures HasCurr(NextInComp(c).at) <==> c.mod.idx < |c.mod.metadata|
  {
  }
}
