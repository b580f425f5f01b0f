// The detector object: its per-method state lives in fields that the
// instruction handlers update in place, with the scope tree as a separate
// object. Every handler is proved to leave exactly the state its function
// in module Sessions describes.

module Detector {
  import opened Common
  import opened Risk
  import opened ScopeBlocks
  import opened TreeQueries
  import opened ScopeTrees
  import opened Reporting
  import opened SwitchTargets
  import opened Sessions

  class BloatedAssignmentScope {
    var ignoreRegs: set<nat>
    var tree: ScopeTree
    var tryBlocks: set<int>
    var catchHandlers: set<int>
    var switchTargets: set<int>
    var monitorSyncPCs: seq<int>
    var exceptions: seq<ExceptionEntry>
    var dontReport: bool
    var sawDup: bool
    var sawNull: bool
    /** The store locations reported for the last method visited. */
    var reports: seq<int>

    /** The fields as a session value. */
    ghost function State(): Session
      reads this, tree
    {
      Session(ignoreRegs, tree.blocks, tryBlocks, catchHandlers, switchTargets, monitorSyncPCs,
              exceptions, dontReport, sawDup, sawNull)
    }

    ghost predicate Valid()
      reads this, tree
    {
      Consistent(State())
    }

    /** The state at the start of a class: empty register sets and monitor stack, a tree with only an empty root. */
    constructor()
      ensures Valid() && fresh(tree) && reports == []
      ensures State() == Session({}, [NewBlock(0, 0)], {}, {}, {}, [], [], false, false, false)
    {
      ignoreRegs := {};
      tree := new ScopeTree(0, 0);
      tryBlocks := {};
      catchHandlers := {};
      switchTargets := {};
      monitorSyncPCs := [];
      exceptions := [];
      dontReport := false;
      sawDup := false;
      sawNull := false;
      reports := [];
    }

    /** Handles a register store. */
    method SawStore(pc: int, reg: nat, declaredSig: Option<string>, stored: Option<UserObject>)
      requires Valid()
      modifies this, tree
      ensures State() == StoreStep(old(State()), pc, reg, declaredSig, stored)
      ensures Valid() && tree == old(tree) && reports == old(reports)
    {
      if pc in catchHandlers {
        ignoreRegs := ignoreRegs + {reg};
        SplitCatchBlock(pc);
      } else if |monitorSyncPCs| > 0 {
        ignoreRegs := ignoreRegs + {reg};
      } else if sawNull {
        ignoreRegs := ignoreRegs + {reg};
      } else if IsRiskyStoreClass(declaredSig) {
        ignoreRegs := ignoreRegs + {reg};
      }
      StoreOrIgnoreReg(pc, reg, stored);
    }

    /** At an exception handler's entry, splits the block around `pc + 1` when it started before `pc`. */
    method SplitCatchBlock(pc: int)
      requires Valid()
      modifies tree
      ensures State() == SplitAtHandler(old(State()), pc)
      ensures Valid()
    {
      var catchSB := FindScopeBlock(tree.blocks, 0, pc + 1);
      if catchSB.Some? && tree.blocks[catchSB.value].start < pc {
        var c := catchSB.value;
        var sb := NewBlock(pc, tree.blocks[c].finish);
        tree.SetFinish(c, pc - 1);
        var _ := tree.AddNew(0, sb);
      }
    }

    /** Records a store of `reg` unless it is ignored, or ignores it when no block holds `pc` or the stored value is risky. */
    method StoreOrIgnoreReg(pc: int, reg: nat, stored: Option<UserObject>)
      requires Valid()
      modifies this, tree
      ensures State() == StoreOrIgnore(old(State()), pc, reg, stored)
      ensures Valid() && tree == old(tree) && reports == old(reports)
    {
      if reg !in ignoreRegs {
        var sb := FindScopeBlock(tree.blocks, 0, pc);
        if sb.Some? {
          if stored.Some? && stored.value.isRisky {
            ignoreRegs := ignoreRegs + {reg};
          } else {
            tree.AddStore(sb.value, reg, pc, StoreKey(stored));
            if sawDup {
              tree.AddLoad(sb.value, reg, pc);
            }
          }
        } else {
          ignoreRegs := ignoreRegs + {reg};
        }
      }
    }

    /** Records a load of `reg` in the innermost block around `pc`, or ignores `reg` when no block holds `pc`. */
    method LoadOrIgnoreReg(pc: int, reg: nat)
      requires Valid()
      modifies this, tree
      ensures State() == LoadOrIgnore(old(State()), pc, reg)
      ensures Valid() && tree == old(tree) && reports == old(reports)
    {
      var sb := FindScopeBlock(tree.blocks, 0, pc);
      if sb.Some? {
        tree.AddLoad(sb.value, reg, pc);
      } else {
        ignoreRegs := ignoreRegs + {reg};
      }
    }

    /** Handles an increment of a register in place: a load, then a store. */
    method SawIinc(pc: int, reg: nat)
      requires Valid()
      modifies this, tree
      ensures State() == IincStep(old(State()), pc, reg)
      ensures Valid() && tree == old(tree) && reports == old(reports)
    {
      if reg !in ignoreRegs {
        LoadOrIgnoreReg(pc, reg);
      }
      if pc in catchHandlers {
        ignoreRegs := ignoreRegs + {reg};
      } else if |monitorSyncPCs| > 0 {
        ignoreRegs := ignoreRegs + {reg};
      } else if sawNull {
        ignoreRegs := ignoreRegs + {reg};
      }
      if reg !in ignoreRegs {
        var sb := FindScopeBlock(tree.blocks, 0, pc);
        if sb.Some? {
          tree.AddStore(sb.value, reg, pc, NullAssoc);
          if sawDup {
            tree.AddLoad(sb.value, reg, pc);
          }
        } else {
          ignoreRegs := ignoreRegs + {reg};
        }
      }
    }

    /** Handles a register load. */
    method SawLoad(pc: int, reg: nat)
      requires Valid()
      modifies this, tree
      ensures State() == LoadStep(old(State()), pc, reg)
      ensures Valid() && tree == old(tree) && reports == old(reports)
    {
      if reg !in ignoreRegs {
        LoadOrIgnoreReg(pc, reg);
      }
    }

    /** The climb of a backward branch: from `sb` up while the parent starts at or after `target`. */
    method ClimbParents(sb: int, target: int) returns (top: int)
      requires Valid() && 0 <= sb < |tree.blocks|
      ensures top == ClimbTo(tree.blocks, sb, target)
    {
      var bs := tree.blocks;
      top := sb;
      var parent := bs[sb].parent;
      while parent >= 0 && bs[parent].start >= target
        invariant 0 <= top < |bs| && parent == bs[top].parent
        invariant ClimbTo(bs, top, target) == ClimbTo(bs, sb, target)
        decreases top
      {
        top := parent;
        parent := bs[parent].parent;
      }
    }

    /** A forward conditional branch that takes over block `sb`. */
    method Absorb(sb: int, pc: int, target: int)
      requires Valid() && 0 <= sb < |tree.blocks|
      modifies this, tree
      ensures State() == AbsorbBlock(old(State()), sb, pc, target)
      ensures Valid() && tree == old(tree) && reports == old(reports)
    {
      if tree.blocks[sb].isGoto {
        var parent := tree.blocks[sb].parent;
        tree.PushUpLoadStores(sb);
        if parent >= 0 {
          tree.RemoveChild(parent, sb);
        }
        var _ := tree.AddNew(0, NewBlock(pc, target));
      } else {
        tree.PushUpLoadStores(sb);
        tree.SetStart(sb, pc);
      }
    }

    /** Handles a branch; `isGoto` for GOTO and GOTO_W, `nextPC` the location after the branch. */
    method SawBranch(pc: int, isGoto: bool, target: int, nextPC: int)
      requires Valid()
      modifies this, tree
      ensures State() == BranchStep(old(State()), pc, isGoto, target, nextPC)
      ensures Valid() && tree == old(tree) && reports == old(reports)
    {
      if target <= pc {
        SawBackwardBranch(pc, target);
      } else if isGoto {
        SawForwardGoto(pc, target, nextPC);
      } else {
        SawForwardBranch(pc, target);
      }
    }

    /** A forward GOTO: unless it jumps out of a switch case, a goto block up to the target. */
    method SawForwardGoto(pc: int, target: int, nextPC: int)
      requires Valid() && target > pc
      modifies tree
      ensures State() == BranchStep(old(State()), pc, true, target, nextPC)
      ensures Valid()
    {
      if nextPC !in switchTargets {
        var found := FindScopeBlockWithTarget(tree.blocks, 0, pc, nextPC);
        if found.None? {
          var _ := tree.AddNew(0, NewBlock(pc, target).(isLoop := true, isGoto := true));
        } else {
          var _ := tree.AddNew(0, NewBlock(nextPC, target).(isGoto := true));
        }
      }
    }

    /** A forward conditional branch: takes over the block ending at the target, or opens a new one. */
    method SawForwardBranch(pc: int, target: int)
      requires Valid() && target > pc
      modifies this, tree
      ensures State() == BranchStep(old(State()), pc, false, target, 0)
      ensures Valid() && tree == old(tree) && reports == old(reports)
    {
      var found := FindScopeBlockWithTarget(tree.blocks, 0, pc, target);
      if found.Some? && Absorbable(tree.blocks[found.value]) {
        Absorb(found.value, pc, target);
      } else {
        var _ := tree.AddNew(0, NewBlock(pc, target));
      }
    }

    /** A backward branch: marks the block it closes as a loop. */
    method SawBackwardBranch(pc: int, target: int)
      requires Valid() && target <= pc
      modifies tree
      ensures State() == BranchStep(old(State()), pc, false, target, 0)
      ensures Valid()
    {
      var found := FindScopeBlock(tree.blocks, 0, pc);
      if found.Some? {
        var sb := FindLoopHead(found.value, target);
        tree.SetLoop(sb);
      }
    }

    /** The block a backward branch to `target` closes, found from the block `sb` holding the branch. */
    method FindLoopHead(sb: int, target: int) returns (l: int)
      requires Valid() && 0 <= sb < |tree.blocks|
      ensures l == LoopHead(tree.blocks, sb, target)
    {
      l := ClimbParents(sb, target);
      if tree.blocks[l].start > target {
        var previous := FindPreviousSiblingScopeBlock(tree.blocks, l);
        if previous.Some? && tree.blocks[previous.value].start >= target {
          l := previous.value;
        }
      }
    }

    /** Handles a table or lookup switch: case blocks between consecutive targets, and every target remembered. */
    method SawSwitch(pc: int, offsets: seq<int>, defaultOffset: int)
      requires Valid()
      modifies this, tree
      ensures State() == SwitchStep(old(State()), pc, offsets, defaultOffset)
      ensures Valid() && tree == old(tree) && reports == old(reports)
    {
      var targets := CollectTargets(offsets, defaultOffset, pc);
      TargetsNonEmpty(offsets, defaultOffset, pc);
      AddCaseBlocks(targets);
      AddSwitchTargets(targets);
    }

    /** Adds one case block under the root for each pair of consecutive targets. */
    method AddCaseBlocks(targets: seq<int>)
      requires Valid() && |targets| >= 1
      modifies tree
      ensures State() == AddCases(old(State()), targets, 1)
      ensures Valid() && tree == old(tree)
    {
      var lastTarget := targets[0];
      var i := 1;
      while i < |targets|
        modifies tree
        invariant 1 <= i <= |targets| && lastTarget == targets[i - 1]
        invariant Valid() && AddCases(State(), targets, i) == AddCases(old(State()), targets, 1)
      {
        var nextTarget := targets[i];
        ghost var before := State();
        var nb := NewBlock(lastTarget, nextTarget).(isCase := true);
        var _ := tree.AddNew(0, nb);
        assert State() == Attach(before, nb);
        lastTarget := nextTarget;
        i := i + 1;
      }
    }

    /** Records every target as a switch target. */
    method AddSwitchTargets(targets: seq<int>)
      requires Valid()
      modifies this
      ensures State() == old(State()).(switchTargets := old(switchTargets) + TargetSet(targets))
      ensures Valid() && tree == old(tree) && reports == old(reports)
    {
      var j := 0;
      while j < |targets|
        invariant 0 <= j <= |targets|
        invariant State() == old(State()).(switchTargets := old(switchTargets) + TargetSet(targets[..j]))
        invariant Valid() && tree == old(tree) && reports == old(reports)
      {
        switchTargets := switchTargets + {targets[j]};
        assert TargetSet(targets[..j + 1]) == TargetSet(targets[..j]) + {targets[j]} by {
          assert targets[..j + 1] == targets[..j] + [targets[j]];
        }
        j := j + 1;
      }
      assert targets[..j] == targets;
    }

    /** Handles INVOKEVIRTUAL and INVOKEINTERFACE, returning the user object for the pushed result. */
    method SawInstanceCall(pc: int, call: MethodRef, caller: Option<CallerKey>) returns (uo: Option<UserObject>)
      requires Valid()
      modifies this, tree
      ensures (State(), uo) == InstanceCallStep(old(State()), pc, call, caller)
      ensures Valid() && tree == old(tree) && reports == old(reports)
    {
      if IsWasNullCall(call) {
        dontReport := true;
      }
      if ReturnsVoid(call.sig) {
        return None;
      }
      uo := Some(UserObject(pc, caller, IsRiskyMethodCall(call)));
      if caller.Some? {
        var sb := FindScopeBlock(tree.blocks, 0, pc);
        if sb.Some? {
          tree.RemoveByAssoc(sb.value, CallerAssoc(caller.value));
        }
      }
    }

    /** Handles INVOKESTATIC and INVOKESPECIAL: only the returned user object, no state change. */
    method SawStaticCall(pc: int, call: MethodRef) returns (uo: Option<UserObject>)
      ensures uo == CallResult(pc, call, None)
      ensures uo.Some? <==> !ReturnsVoid(call.sig)
      ensures uo.Some? ==> uo.value.caller.None? && (uo.value.isRisky <==> IsRiskyMethodCall(call))
    {
      if ReturnsVoid(call.sig) {
        return None;
      }
      uo := Some(UserObject(pc, None, IsRiskyMethodCall(call)));
    }

    /** Handles MONITORENTER. */
    method SawMonitorEnter(pc: int)
      requires Valid()
      modifies this, tree
      ensures State() == MonitorEnterStep(old(State()), pc)
      ensures Valid() && tree == old(tree) && reports == old(reports)
    {
      ghost var s1 := State().(monitorSyncPCs := monitorSyncPCs + [pc]);
      monitorSyncPCs := monitorSyncPCs + [pc];
      assert State() == s1;
      var nb := NewBlock(pc, IntMax).(isSync := true);
      var _ := tree.AddNew(0, nb);
      assert State() == Attach(s1, nb);
    }

    /** Handles MONITOREXIT. */
    method SawMonitorExit(pc: int)
      requires Valid()
      modifies this, tree
      ensures State() == MonitorExitStep(old(State()), pc)
      ensures Valid() && tree == old(tree) && reports == old(reports)
    {
      if |monitorSyncPCs| > 0 {
        var sb := FindSynchronizedScopeBlock(tree.blocks, 0, monitorSyncPCs[0]);
        tree.SetFinish(sb, pc);
        monitorSyncPCs := monitorSyncPCs[..|monitorSyncPCs| - 1];
      }
    }

    /** Opens the try block when a protected range starts at `pc`. */
    method OpenTryBlock(pc: int)
      requires Valid()
      modifies this, tree
      ensures State() == OpenTry(old(State()), pc)
      ensures Valid() && tree == old(tree) && reports == old(reports)
    {
      if pc in tryBlocks {
        var _ := tree.AddNew(0, NewBlock(pc, FindCatchHandlerFor(exceptions, pc)).(isTry := true));
      }
    }

    /** Handles one instruction, returning the user object for the value it pushes. */
    method SawOpcode(pc: int, ins: Instr) returns (uo: Option<UserObject>)
      requires Valid()
      modifies this, tree
      ensures (State(), uo) == Step(old(State()), pc, ins)
      ensures Valid() && tree == old(tree) && reports == old(reports)
    {
      OpenTryBlock(pc);
      ghost var afterTry := State();
      assert afterTry == OpenTry(old(State()), pc);
      uo := DispatchInstr(pc, ins);
      ghost var d := Dispatch(afterTry, pc, ins);
      assert (State(), uo) == d;
      sawDup := ins.Dup?;
      sawNull := ins.AconstNull?;
    }

    /** Hands one instruction to its handler. */
    method DispatchInstr(pc: int, ins: Instr) returns (uo: Option<UserObject>)
      requires Valid()
      modifies this, tree
      ensures (State(), uo) == Dispatch(old(State()), pc, ins)
      ensures Valid() && tree == old(tree) && reports == old(reports)
    {
      uo := None;
      match ins {
        case Store(reg, declaredSig, stored) => SawStore(pc, reg, declaredSig, stored);
        case Iinc(reg) => SawIinc(pc, reg);
        case Load(reg) => SawLoad(pc, reg);
        case Branch(isGoto, target, nextPC) => SawBranch(pc, isGoto, target, nextPC);
        case Switch(offsets, defaultOffset) => SawSwitch(pc, offsets, defaultOffset);
        case InstanceCall(call, caller) => uo := SawInstanceCall(pc, call, caller);
        case StaticCall(call) => uo := SawStaticCall(pc, call);
        case MonitorEnter => SawMonitorEnter(pc);
        case MonitorExit => SawMonitorExit(pc);
        case Dup =>
        case AconstNull =>
        case Other =>
      }
    }

    /** The registers set aside before the walk: the receiver of an instance method, then each parameter. */
    static method SeedIgnores(isStatic: bool, parmRegs: seq<nat>) returns (ignores: set<nat>)
      ensures ignores == SeededIgnores(isStatic, parmRegs)
    {
      ignores := {};
      if !isStatic {
        ignores := ignores + {0};
      }
      var k := 0;
      while k < |parmRegs|
        invariant 0 <= k <= |parmRegs|
        invariant ignores == (if isStatic then {} else {0}) + (set p | p in parmRegs[..k])
      {
        assert parmRegs[..k + 1] == parmRegs[..k] + [parmRegs[k]];
        ignores := ignores + {parmRegs[k]};
        k := k + 1;
      }
      assert parmRegs[..k] == parmRegs;
    }

    /** The try-block starts and the handler locations of the exception table. */
    static method ScanExceptionTable(table: seq<ExceptionEntry>) returns (tries: set<int>, handlers: set<int>)
      ensures tries == TryStarts(table) && handlers == HandlerStarts(table)
    {
      tries := {};
      handlers := {};
      var e := 0;
      while e < |table|
        invariant 0 <= e <= |table|
        invariant tries == TryStarts(table[..e]) && handlers == HandlerStarts(table[..e])
      {
        assert table[..e + 1] == table[..e] + [table[e]];
        tries := tries + {table[e].startPC};
        handlers := handlers + {table[e].handlerPC};
        e := e + 1;
      }
      assert table[..e] == table;
    }

    /** Hands every instruction of `code` to `SawOpcode`, in order. */
    method WalkCode(code: seq<Located>)
      requires Valid()
      modifies this, tree
      ensures State() == Run(old(State()), code)
      ensures Valid() && tree == old(tree) && reports == old(reports)
    {
      var i := 0;
      while i < |code|
        invariant 0 <= i <= |code|
        invariant State() == Run(old(State()), code[..i])
        invariant Valid() && tree == old(tree) && reports == old(reports)
      {
        assert code[..i + 1][..i] == code[..i];
        var _ := SawOpcode(code[i].pc, code[i].ins);
        i := i + 1;
      }
      assert code[..i] == code;
    }

    /**
     * Walks one method: seeds the ignored registers, the root block and the
     * exception-table sets, hands every instruction to `SawOpcode`, and,
     * unless a `wasNull()` call was seen, reports the stores the tree walk
     * finds.
     */
    method VisitCode(isStatic: bool, parmRegs: seq<nat>, length: int, table: seq<ExceptionEntry>, code: seq<Located>)
      modifies this
      ensures Valid() && fresh(tree)
      ensures var fin := Run(Seeded(isStatic, parmRegs, length, table, old(monitorSyncPCs)), code);
              && monitorSyncPCs == fin.monitorSyncPCs && dontReport == fin.dontReport && ignoreRegs == fin.ignoreRegs
              && multiset(reports) == if fin.dontReport then multiset{} else ReportsTree(fin.blocks, 0, {}, fin.ignoreRegs)
    {
      Seed(isStatic, parmRegs, length, table);
      WalkCode(code);
      ReportStores();
    }

    /** `visitCode`'s set-up: the ignored registers, a fresh root block over the whole code and the exception-table sets. */
    method Seed(isStatic: bool, parmRegs: seq<nat>, length: int, table: seq<ExceptionEntry>)
      modifies this
      ensures State() == Seeded(isStatic, parmRegs, length, table, old(monitorSyncPCs))
      ensures Valid() && fresh(tree)
    {
      var ignores := SeedIgnores(isStatic, parmRegs);
      var tries, handlers := ScanExceptionTable(table);
      var root := new ScopeTree(0, length);
      ignoreRegs, tree, tryBlocks, catchHandlers, exceptions := ignores, root, tries, handlers, table;
      switchTargets, dontReport, sawDup, sawNull := {}, false, false, false;
      assert State() == Seeded(isStatic, parmRegs, length, table, monitorSyncPCs);
    }

    /** Reports the stores the tree walk finds, unless a `wasNull()` call was seen. */
    method ReportStores()
      requires Valid()
      modifies this, tree
      ensures Valid() && tree == old(tree)
      ensures monitorSyncPCs == old(monitorSyncPCs) && dontReport == old(dontReport) && ignoreRegs == old(ignoreRegs)
      ensures multiset(reports) == if dontReport then multiset{} else ReportsTree(old(tree.blocks), 0, {}, ignoreRegs)
    {
      if !dontReport {
        ghost var bs := tree.blocks;
        reports := tree.FindBugs(0, {}, ignoreRegs);
        PrunedConsistent(bs, tree.blocks);
      } else {
        reports := [];
      }
    }
  }
}
