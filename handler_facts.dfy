// What the instruction handlers promise, stated over the session functions
// of module Sessions: ignored registers are never recorded and stay
// ignored, the registers seeded as ignored are never tracked at all, the
// `wasNull()` kill-switch, the dead receiver retraction, the case blocks a
// switch creates, the ancestor a backward branch climbs to, the
// monitor stack, and straight-line code, which keeps the root as the only
// block and reports nothing.

module HandlerFacts {
  import opened Common
  import opened Risk
  import opened ScopeBlocks
  import opened TreeQueries
  import opened ScopeTrees
  import opened SwitchTargets
  import opened Sessions
  import opened Reporting

  // ---------------------------------------------------------------------
  // Accesses
  // ---------------------------------------------------------------------

  /** No block records a load or a store of `reg`. */
  ghost predicate Untracked(bs: seq<Block>, reg: nat)
  {
    forall x :: 0 <= x < |bs| ==> reg !in bs[x].loads && reg !in bs[x].stores
  }

  /** Splitting the block around an exception handler keeps every recorded access and adds none. */
  lemma SplitKeepsAccesses(s: Session, pc: int)
    requires Consistent(s)
    ensures AccessesKept(s.blocks, SplitAtHandler(s, pc).blocks)
  {
    match FindScopeBlock(s.blocks, 0, pc + 1)
    case None =>
    case Some(c) =>
      if s.blocks[c].start < pc {
        var s1 := s.(blocks := s.blocks[c := s.blocks[c].(finish := pc - 1)]);
        Retouched(s.blocks, c, s.blocks[c].(finish := pc - 1));
        AttachKeepsAccesses(s1, NewBlock(pc, s.blocks[c].finish));
      }
  }

  /** Keeping accesses keeps a register untracked. */
  lemma KeptUntracked(bs: seq<Block>, bs': seq<Block>, reg: nat)
    requires AccessesKept(bs, bs') && Untracked(bs, reg)
    ensures Untracked(bs', reg)
  {
  }

  // ---------------------------------------------------------------------
  // Ignored registers
  // ---------------------------------------------------------------------

  /** A store of a register already ignored records nothing; it only splits the block around an exception handler it sits on. */
  lemma IgnoredStoreRecordsNothing(s: Session, pc: int, reg: nat, declaredSig: Option<string>, stored: Option<UserObject>)
    requires Consistent(s) && reg in s.ignoreRegs
    ensures StoreStep(s, pc, reg, declaredSig, stored) == if pc in s.catchHandlers then SplitAtHandler(s, pc) else s
    ensures AccessesKept(s.blocks, StoreStep(s, pc, reg, declaredSig, stored).blocks)
  {
    SplitKeepsAccesses(s, pc);
    var s1 := if pc in s.catchHandlers then SplitAtHandler(s, pc) else s;
    assert s1.ignoreRegs == s.ignoreRegs;
    assert Ignore(s1, reg) == s1;
  }

  /** An increment of a register already ignored changes nothing. */
  lemma IgnoredIincRecordsNothing(s: Session, pc: int, reg: nat)
    requires Consistent(s) && reg in s.ignoreRegs
    ensures IincStep(s, pc, reg) == s
  {
    assert Ignore(s, reg) == s;
  }

  /** A load of a register already ignored changes nothing. */
  lemma IgnoredLoadRecordsNothing(s: Session, pc: int, reg: nat)
    requires Consistent(s) && reg in s.ignoreRegs
    ensures LoadStep(s, pc, reg) == s
  {
  }

  /**
   * A store leaves its register ignored, without recording anything, when
   * it sits on an exception handler, a monitor is held, the previous
   * instruction pushed null, the register's declared type is risky, no
   * block encloses it, or the stored value comes from a risky call.
   */
  lemma StoreIgnoredWhen(s: Session, pc: int, reg: nat, declaredSig: Option<string>, stored: Option<UserObject>)
    requires Consistent(s)
    requires || StoreIgnoredUpFront(s, pc, declaredSig)
             || FindScopeBlock(s.blocks, 0, pc).None?
             || (stored.Some? && stored.value.isRisky)
    ensures var r := StoreStep(s, pc, reg, declaredSig, stored);
            && r.ignoreRegs == s.ignoreRegs + {reg}
            && AccessesKept(s.blocks, r.blocks)
  {
    SplitKeepsAccesses(s, pc);
  }

  /**
   * Otherwise a store of a register not yet ignored is recorded in the
   * innermost block around it, with its value's association, and with a
   * load at the same location when the previous instruction was a DUP;
   * nothing else changes.
   */
  lemma StoreRecorded(s: Session, pc: int, reg: nat, declaredSig: Option<string>, stored: Option<UserObject>, sb: int)
    requires Consistent(s) && reg !in s.ignoreRegs
    requires !StoreIgnoredUpFront(s, pc, declaredSig) && !(stored.Some? && stored.value.isRisky)
    requires FindScopeBlock(s.blocks, 0, pc) == Some(sb)
    ensures 0 <= sb < |s.blocks|
    ensures var r := StoreStep(s, pc, reg, declaredSig, stored);
            var b := s.blocks[sb];
            && r == s.(blocks := r.blocks)
            && r.blocks == s.blocks[sb := b.(stores := b.stores[reg := pc],
                                             assocs := b.assocs[StoreKey(stored) := reg],
                                             loads := if s.sawDup then b.loads[reg := pc] else b.loads)]
  {
    FindScopeBlockDescends(s.blocks, 0, pc);
    assert StoreStep(s, pc, reg, declaredSig, stored) == StoreOrIgnore(s, pc, reg, stored);
    assert StoreOrIgnore(s, pc, reg, stored) == RecordStore(s, sb, reg, pc, StoreKey(stored));
    var b := s.blocks[sb];
    var bs := WithStore(s.blocks, sb, reg, pc, StoreKey(stored));
    assert bs == s.blocks[sb := b.(stores := b.stores[reg := pc], assocs := b.assocs[StoreKey(stored) := reg])];
  }

  /**
   * The receiver retraction of an instance call never removes anything: no
   * block associates a register with a receiver, so the call changes no
   * more than the `wasNull()` flag.
   */
  lemma CallerRetractionIsDead(s: Session, pc: int, call: MethodRef, caller: Option<CallerKey>)
    requires Consistent(s)
    ensures InstanceCallStep(s, pc, call, caller).0 == s.(dontReport := s.dontReport || IsWasNullCall(call))
  {
    var s1 := if IsWasNullCall(call) then s.(dontReport := true) else s;
    if !ReturnsVoid(call.sig) && caller.Some? {
      match FindScopeBlock(s1.blocks, 0, pc)
      case None =>
      case Some(sb) =>
        FindScopeBlockDescends(s1.blocks, 0, pc);
        ForgetCallerIsNoop(s1.blocks, sb, caller.value);
    }
  }

  /** The parts of the session an instruction leaves alone or only lets grow. */
  ghost predicate Follows(s: Session, r: Session)
  {
    && s.ignoreRegs <= r.ignoreRegs
    && r.dontReport == s.dontReport
    && r.tryBlocks == s.tryBlocks && r.catchHandlers == s.catchHandlers && r.exceptions == s.exceptions
  }

  /** Every handler but the instance call's keeps the ignored registers, the kill-switch and the exception sets. */
  lemma DispatchFollows(s: Session, pc: int, ins: Instr)
    requires Consistent(s) && !ins.InstanceCall?
    ensures Follows(s, Dispatch(s, pc, ins).0)
  {
    if ins.Store? || ins.Iinc? || ins.Load? {
      AccessFollows(s, pc, ins);
    } else if ins.Branch? || ins.Switch? {
      JumpFollows(s, pc, ins);
    } else {
      OtherFollows(s, pc, ins);
    }
  }

  lemma AccessFollows(s: Session, pc: int, ins: Instr)
    requires Consistent(s) && (ins.Store? || ins.Iinc? || ins.Load?)
    ensures Follows(s, Dispatch(s, pc, ins).0)
  {
    match ins
    case Store(reg, declaredSig, stored) => StoreFollows(s, pc, reg, declaredSig, stored);
    case Iinc(reg) => IincFollows(s, pc, reg);
    case Load(reg) =>
  }

  lemma JumpFollows(s: Session, pc: int, ins: Instr)
    requires Consistent(s) && (ins.Branch? || ins.Switch?)
    ensures Follows(s, Dispatch(s, pc, ins).0)
  {
  }

  lemma OtherFollows(s: Session, pc: int, ins: Instr)
    requires Consistent(s) && !(ins.Store? || ins.Iinc? || ins.Load? || ins.Branch? || ins.Switch? || ins.InstanceCall?)
    ensures Follows(s, Dispatch(s, pc, ins).0)
  {
    var r := Dispatch(s, pc, ins).0;
    match ins
    case MonitorEnter => assert r == MonitorEnterStep(s, pc);
    case MonitorExit => assert r == MonitorExitStep(s, pc);
    case StaticCall(call) => assert r == s;
    case Dup => assert r == s;
    case AconstNull => assert r == s;
    case Other => assert r == s;
  }

  lemma StoreFollows(s: Session, pc: int, reg: nat, declaredSig: Option<string>, stored: Option<UserObject>)
    requires Consistent(s)
    ensures Follows(s, StoreStep(s, pc, reg, declaredSig, stored))
  {
  }

  lemma IincFollows(s: Session, pc: int, reg: nat)
    requires Consistent(s)
    ensures Follows(s, IincStep(s, pc, reg))
  {
  }

  /**
   * One instruction never takes a register out of the ignored set, and it
   * raises the kill-switch exactly when it is a `wasNull()` call.
   */
  lemma StepFollows(s: Session, pc: int, ins: Instr)
    requires Consistent(s)
    ensures var r := Step(s, pc, ins).0;
            && s.ignoreRegs <= r.ignoreRegs
            && (r.dontReport <==> s.dontReport || WasNullAt(ins))
  {
    var s1 := OpenTry(s, pc);
    if ins.InstanceCall? {
      CallerRetractionIsDead(s1, pc, ins.call, ins.caller);
    } else {
      DispatchFollows(s1, pc, ins);
    }
  }

  /** The instruction is a call of `wasNull()`. */
  predicate WasNullAt(ins: Instr)
  {
    ins.InstanceCall? && IsWasNullCall(ins.call)
  }

  /** The ignored set only grows over a whole walk. */
  lemma {:induction false} RunKeepsIgnored(s: Session, code: seq<Located>)
    requires Consistent(s)
    ensures s.ignoreRegs <= Run(s, code).ignoreRegs
  {
    if code != [] {
      var last := code[|code| - 1];
      RunKeepsIgnored(s, code[..|code| - 1]);
      StepFollows(Run(s, code[..|code| - 1]), last.pc, last.ins);
    }
  }

  /** Over a whole walk, the kill-switch is up exactly when it was up before or the code calls `wasNull()`. */
  lemma {:induction false} RunDontReport(s: Session, code: seq<Located>)
    requires Consistent(s)
    ensures Run(s, code).dontReport <==> s.dontReport || exists i :: 0 <= i < |code| && WasNullAt(code[i].ins)
  {
    if code != [] {
      var init := code[..|code| - 1];
      var last := code[|code| - 1];
      RunDontReport(s, init);
      StepFollows(Run(s, init), last.pc, last.ins);
      if exists i :: 0 <= i < |code| && WasNullAt(code[i].ins) {
        var i :| 0 <= i < |code| && WasNullAt(code[i].ins);
        if i < |code| - 1 {
          assert init[i] == code[i];
        }
      }
      if exists i :: 0 <= i < |init| && WasNullAt(init[i].ins) {
        var i :| 0 <= i < |init| && WasNullAt(init[i].ins);
        assert code[i] == init[i];
      }
    }
  }

  // ---------------------------------------------------------------------
  // Registers seeded as ignored
  // ---------------------------------------------------------------------

  /** Opening a try block keeps every recorded access and adds none. */
  lemma OpenTryKeepsAccesses(s: Session, pc: int)
    requires Consistent(s)
    ensures AccessesKept(s.blocks, OpenTry(s, pc).blocks)
  {
    if pc in s.tryBlocks {
      AttachKeepsAccesses(s, NewBlock(pc, FindCatchHandlerFor(s.exceptions, pc)).(isTry := true));
    }
  }

  /** A branch never makes an untracked register tracked: accesses only move from a block to its parent. */
  lemma BranchKeepsUntracked(s: Session, pc: int, isGoto: bool, target: int, nextPC: int, reg: nat)
    requires Consistent(s) && Untracked(s.blocks, reg)
    ensures Untracked(BranchStep(s, pc, isGoto, target, nextPC).blocks, reg)
  {
    var r := BranchStep(s, pc, isGoto, target, nextPC);
    if target > pc {
      if isGoto {
        if nextPC in s.switchTargets {
          assert r == s;
        } else if FindScopeBlockWithTarget(s.blocks, 0, pc, nextPC).None? {
          var nb := NewBlock(pc, target).(isLoop := true, isGoto := true);
          assert r == Attach(s, nb);
          AttachKeepsUntracked(s, nb, reg);
        } else {
          var nb := NewBlock(nextPC, target).(isGoto := true);
          assert r == Attach(s, nb);
          AttachKeepsUntracked(s, nb, reg);
        }
      } else {
        match FindScopeBlockWithTarget(s.blocks, 0, pc, target)
        case Some(sb) =>
          if Absorbable(s.blocks[sb]) {
            assert r == AbsorbBlock(s, sb, pc, target);
            AbsorbKeepsUntracked(s, sb, pc, target, reg);
          } else {
            assert r == Attach(s, NewBlock(pc, target));
            AttachKeepsUntracked(s, NewBlock(pc, target), reg);
          }
        case None =>
          assert r == Attach(s, NewBlock(pc, target));
          AttachKeepsUntracked(s, NewBlock(pc, target), reg);
      }
    }
  }

  /** Attaching a new block keeps an untracked register untracked. */
  lemma AttachKeepsUntracked(s: Session, nb: Block, reg: nat)
    requires Consistent(s) && IsNew(nb) && Untracked(s.blocks, reg)
    ensures Untracked(Attach(s, nb).blocks, reg)
  {
    AttachKeepsAccesses(s, nb);
    KeptUntracked(s.blocks, Attach(s, nb).blocks, reg);
  }

  /** Taking over a block moves its accesses to its parent and so keeps an untracked register untracked. */
  lemma AbsorbKeepsUntracked(s: Session, sb: int, pc: int, target: int, reg: nat)
    requires Consistent(s) && 0 <= sb < |s.blocks| && Untracked(s.blocks, reg)
    ensures Untracked(AbsorbBlock(s, sb, pc, target).blocks, reg)
  {
    var r := AbsorbBlock(s, sb, pc, target);
    var bs1 := PushedUp(s.blocks, sb);
    PushedUpKeepsUntracked(s.blocks, sb, reg);
    PushedUpConsistent(s.blocks, sb);
    var p := s.blocks[sb].parent;
    if s.blocks[sb].isGoto && p >= 0 {
      DetachConsistent(bs1, p, sb);
      var s2 := s.(blocks := bs1[p := bs1[p].(children := RemoveFirst(bs1[p].children, sb))]);
      RelistKeepsUntracked(bs1, p, RemoveFirst(bs1[p].children, sb), reg);
      assert r == Attach(s2, NewBlock(pc, target));
      AttachKeepsUntracked(s2, NewBlock(pc, target), reg);
    } else if s.blocks[sb].isGoto {
      assert r == Attach(s.(blocks := bs1), NewBlock(pc, target));
      AttachKeepsUntracked(s.(blocks := bs1), NewBlock(pc, target), reg);
    } else {
      assert r.blocks == bs1[sb := bs1[sb].(start := pc)];
      assert Untracked(r.blocks, reg);
    }
  }

  /** Changing one block's children list keeps an untracked register untracked. */
  lemma RelistKeepsUntracked(bs: seq<Block>, p: int, ks: seq<int>, reg: nat)
    requires 0 <= p < |bs| && Untracked(bs, reg)
    ensures Untracked(bs[p := bs[p].(children := ks)], reg)
  {
  }

  /** Moving a block's accesses to its parent keeps an untracked register untracked. */
  lemma PushedUpKeepsUntracked(bs: seq<Block>, h: int, reg: nat)
    requires WellFormed(bs) && 0 <= h < |bs| && Untracked(bs, reg)
    ensures Untracked(PushedUp(bs, h), reg)
  {
    PushedUpSpec(bs, h);
    var p := bs[h].parent;
    if p >= 0 {
      var r := PushedUp(bs, h);
      assert reg !in bs[p].loads && reg !in bs[h].loads && reg !in bs[p].stores && reg !in bs[h].stores;
      assert reg !in r[p].loads && reg !in r[p].stores;
    }
  }

  /** Recording an access of register `r` leaves every other register as tracked as it was. */
  lemma RecordKeepsOthers(s: Session, sb: int, r: nat, pc: int, key: AssocKey, reg: nat)
    requires Consistent(s) && 0 <= sb < |s.blocks| && !key.CallerAssoc? && r != reg && Untracked(s.blocks, reg)
    ensures Untracked(RecordStore(s, sb, r, pc, key).blocks, reg)
  {
    var bs := WithStore(s.blocks, sb, r, pc, key);
    assert Untracked(bs, reg);
  }

  lemma LoadOrIgnoreKeepsOthers(s: Session, pc: int, r: nat, reg: nat)
    requires Consistent(s) && r != reg && Untracked(s.blocks, reg)
    ensures Untracked(LoadOrIgnore(s, pc, r).blocks, reg)
  {
    match FindScopeBlock(s.blocks, 0, pc)
    case None =>
    case Some(sb) => FindScopeBlockDescends(s.blocks, 0, pc);
  }

  lemma StoreKeepsOthers(s: Session, pc: int, r: nat, declaredSig: Option<string>, stored: Option<UserObject>, reg: nat)
    requires Consistent(s) && r != reg && Untracked(s.blocks, reg)
    ensures Untracked(StoreStep(s, pc, r, declaredSig, stored).blocks, reg)
  {
    var s1 := if pc in s.catchHandlers then SplitAtHandler(s, pc) else s;
    if pc in s.catchHandlers {
      SplitKeepsAccesses(s, pc);
      KeptUntracked(s.blocks, s1.blocks, reg);
    }
    var s2 := if StoreIgnoredUpFront(s, pc, declaredSig) then Ignore(s1, r) else s1;
    assert s2.blocks == s1.blocks;
    if r !in s2.ignoreRegs {
      match FindScopeBlock(s2.blocks, 0, pc)
      case None =>
      case Some(sb) =>
        FindScopeBlockDescends(s2.blocks, 0, pc);
        if !(stored.Some? && stored.value.isRisky) {
          RecordKeepsOthers(s2, sb, r, pc, StoreKey(stored), reg);
        }
    }
  }

  lemma IincKeepsOthers(s: Session, pc: int, r: nat, reg: nat)
    requires Consistent(s) && r != reg && Untracked(s.blocks, reg)
    ensures Untracked(IincStep(s, pc, r).blocks, reg)
  {
    LoadOrIgnoreKeepsOthers(s, pc, r, reg);
    var s1 := if r in s.ignoreRegs then s else LoadOrIgnore(s, pc, r);
    var s2 := if pc in s.catchHandlers || |s.monitorSyncPCs| > 0 || s.sawNull then Ignore(s1, r) else s1;
    assert Untracked(s2.blocks, reg);
    if r !in s2.ignoreRegs {
      match FindScopeBlock(s2.blocks, 0, pc)
      case None =>
      case Some(sb) =>
        FindScopeBlockDescends(s2.blocks, 0, pc);
        RecordKeepsOthers(s2, sb, r, pc, NullAssoc, reg);
    }
  }

  lemma LoadKeepsOthers(s: Session, pc: int, r: nat, reg: nat)
    requires Consistent(s) && r != reg && Untracked(s.blocks, reg)
    ensures Untracked(LoadStep(s, pc, r).blocks, reg)
  {
    LoadOrIgnoreKeepsOthers(s, pc, r, reg);
  }

  /** No handler makes an ignored, untracked register tracked. */
  lemma DispatchKeepsUntracked(s: Session, pc: int, ins: Instr, reg: nat)
    requires Consistent(s) && reg in s.ignoreRegs && Untracked(s.blocks, reg)
    ensures Untracked(Dispatch(s, pc, ins).0.blocks, reg)
  {
    if ins.Store? || ins.Iinc? || ins.Load? {
      AccessKeepsUntracked(s, pc, ins, reg);
    } else {
      OtherKeepsUntracked(s, pc, ins, reg);
    }
  }

  lemma AccessKeepsUntracked(s: Session, pc: int, ins: Instr, reg: nat)
    requires Consistent(s) && reg in s.ignoreRegs && Untracked(s.blocks, reg)
    requires ins.Store? || ins.Iinc? || ins.Load?
    ensures Untracked(Dispatch(s, pc, ins).0.blocks, reg)
  {
    match ins
    case Store(r, declaredSig, stored) =>
      if r == reg {
        IgnoredStoreRecordsNothing(s, pc, r, declaredSig, stored);
      } else {
        StoreKeepsOthers(s, pc, r, declaredSig, stored, reg);
      }
    case Iinc(r) =>
      if r != reg {
        IincKeepsOthers(s, pc, r, reg);
      } else {
        IgnoredIincRecordsNothing(s, pc, r);
      }
    case Load(r) =>
      if r != reg {
        LoadKeepsOthers(s, pc, r, reg);
      }
  }

  lemma OtherKeepsUntracked(s: Session, pc: int, ins: Instr, reg: nat)
    requires Consistent(s) && Untracked(s.blocks, reg)
    requires !(ins.Store? || ins.Iinc? || ins.Load?)
    ensures Untracked(Dispatch(s, pc, ins).0.blocks, reg)
  {
    var r := Dispatch(s, pc, ins).0;
    match ins
    case Branch(isGoto, target, nextPC) =>
      assert r == BranchStep(s, pc, isGoto, target, nextPC);
      BranchKeepsUntracked(s, pc, isGoto, target, nextPC, reg);
    case Switch(offsets, defaultOffset) =>
      assert r == SwitchStep(s, pc, offsets, defaultOffset);
      SwitchKeepsAccesses(s, pc, offsets, defaultOffset);
      KeptUntracked(s.blocks, r.blocks, reg);
    case InstanceCall(call, caller) =>
      assert r == InstanceCallStep(s, pc, call, caller).0;
      CallerRetractionIsDead(s, pc, call, caller);
    case StaticCall(call) =>
    case MonitorEnter =>
      assert r == MonitorEnterStep(s, pc);
      MonitorEnterKeepsAccesses(s, pc);
      KeptUntracked(s.blocks, r.blocks, reg);
    case MonitorExit =>
      assert r == MonitorExitStep(s, pc);
      MonitorExitKeepsAccesses(s, pc);
      KeptUntracked(s.blocks, r.blocks, reg);
    case Dup =>
    case AconstNull =>
    case Other =>
  }

  lemma SwitchKeepsAccesses(s: Session, pc: int, offsets: seq<int>, defaultOffset: int)
    requires Consistent(s)
    ensures AccessesKept(s.blocks, SwitchStep(s, pc, offsets, defaultOffset).blocks)
  {
  }

  lemma MonitorEnterKeepsAccesses(s: Session, pc: int)
    requires Consistent(s)
    ensures AccessesKept(s.blocks, MonitorEnterStep(s, pc).blocks)
  {
    AttachKeepsAccesses(s.(monitorSyncPCs := s.monitorSyncPCs + [pc]), NewBlock(pc, IntMax).(isSync := true));
  }

  lemma MonitorExitKeepsAccesses(s: Session, pc: int)
    requires Consistent(s)
    ensures AccessesKept(s.blocks, MonitorExitStep(s, pc).blocks)
  {
    if |s.monitorSyncPCs| > 0 {
      var m := SyncFrom(s.blocks, 0);
      assert MonitorExitStep(s, pc).blocks == s.blocks[m := s.blocks[m].(finish := pc)];
      RefinishKeepsAccesses(s.blocks, m, pc);
    }
  }

  /** Changing one block's finish keeps every recorded access. */
  lemma RefinishKeepsAccesses(bs: seq<Block>, m: int, f: int)
    requires 0 <= m < |bs|
    ensures AccessesKept(bs, bs[m := bs[m].(finish := f)])
  {
  }

  /** One instruction, try block included, leaves an ignored untracked register ignored and untracked. */
  lemma StepKeepsUntracked(s: Session, pc: int, ins: Instr, reg: nat)
    requires Consistent(s) && reg in s.ignoreRegs && Untracked(s.blocks, reg)
    ensures var r := Step(s, pc, ins).0;
            reg in r.ignoreRegs && Untracked(r.blocks, reg)
  {
    var s1 := OpenTry(s, pc);
    OpenTryKeepsAccesses(s, pc);
    KeptUntracked(s.blocks, s1.blocks, reg);
    DispatchKeepsUntracked(s1, pc, ins, reg);
    StepFollows(s, pc, ins);
  }

  /** Over a whole walk, an ignored untracked register stays ignored and untracked. */
  lemma {:induction false} RunKeepsUntracked(s: Session, code: seq<Located>, reg: nat)
    requires Consistent(s) && reg in s.ignoreRegs && Untracked(s.blocks, reg)
    ensures var r := Run(s, code);
            reg in r.ignoreRegs && Untracked(r.blocks, reg)
  {
    if code != [] {
      var last := code[|code| - 1];
      RunKeepsUntracked(s, code[..|code| - 1], reg);
      StepKeepsUntracked(Run(s, code[..|code| - 1]), last.pc, last.ins, reg);
    }
  }

  /**
   * The receiver of an instance method and the parameters are never
   * tracked: whatever the code, no block of the finished walk records a
   * load or a store of them, so no store of theirs can be reported.
   */
  lemma SeededRegistersNeverTracked(isStatic: bool, parmRegs: seq<nat>, length: int, exceptions: seq<ExceptionEntry>,
                                    monitorSyncPCs: seq<int>, code: seq<Located>, reg: nat)
    requires reg in SeededIgnores(isStatic, parmRegs)
    ensures var r := Run(Seeded(isStatic, parmRegs, length, exceptions, monitorSyncPCs), code);
            reg in r.ignoreRegs && Untracked(r.blocks, reg)
  {
    RunKeepsUntracked(Seeded(isStatic, parmRegs, length, exceptions, monitorSyncPCs), code, reg);
  }

  // ---------------------------------------------------------------------
  // Straight-line code
  // ---------------------------------------------------------------------

  /** An instruction that never opens, closes or reshapes a scope block. */
  predicate StraightLine(ins: Instr)
  {
    !ins.Branch? && !ins.Switch? && !ins.MonitorEnter? && !ins.MonitorExit?
  }

  /** The root is the only block, it never got children, and the exception table named no locations. */
  ghost predicate RootOnly(s: Session)
  {
    && Consistent(s) && |s.blocks| == 1 && !s.blocks[0].hasChildren
    && s.tryBlocks == {} && s.catchHandlers == {}
  }

  /** A store records into the root at most. */
  lemma StoreKeepsRoot(s: Session, pc: int, reg: nat, declaredSig: Option<string>, stored: Option<UserObject>)
    requires RootOnly(s)
    ensures RootOnly(StoreStep(s, pc, reg, declaredSig, stored))
  {
    var s2 := if StoreIgnoredUpFront(s, pc, declaredSig) then Ignore(s, reg) else s;
    assert StoreStep(s, pc, reg, declaredSig, stored) == StoreOrIgnore(s2, pc, reg, stored);
  }

  /** An increment loads and stores in the root at most. */
  lemma IincKeepsRoot(s: Session, pc: int, reg: nat)
    requires RootOnly(s)
    ensures RootOnly(IincStep(s, pc, reg))
  {
    var s1 := if reg in s.ignoreRegs then s else LoadOrIgnore(s, pc, reg);
    assert RootOnly(s1);
  }

  /** One straight-line instruction keeps the root the only block. */
  lemma StepKeepsRoot(s: Session, pc: int, ins: Instr)
    requires RootOnly(s) && StraightLine(ins)
    ensures RootOnly(Step(s, pc, ins).0)
  {
    assert OpenTry(s, pc) == s;
    match ins
    case Store(reg, declaredSig, stored) => StoreKeepsRoot(s, pc, reg, declaredSig, stored);
    case Iinc(reg) => IincKeepsRoot(s, pc, reg);
    case InstanceCall(call, caller) => CallerRetractionIsDead(s, pc, call, caller);
    case _ =>
  }

  /** Over straight-line code the root stays the only block. */
  lemma {:induction false} RunKeepsRoot(s: Session, code: seq<Located>)
    requires RootOnly(s)
    requires forall i :: 0 <= i < |code| ==> StraightLine(code[i].ins)
    ensures RootOnly(Run(s, code))
  {
    if code != [] {
      var last := code[|code| - 1];
      RunKeepsRoot(s, code[..|code| - 1]);
      StepKeepsRoot(Run(s, code[..|code| - 1]), last.pc, last.ins);
    }
  }

  /**
   * A method without branches, switches or monitors and with an empty
   * exception table keeps a tree of the root block alone, and so the final
   * walk reports nothing.
   */
  lemma {:induction false} StraightLineReportsNothing(isStatic: bool, parmRegs: seq<nat>, length: int,
                                                      code: seq<Located>, monitorSyncPCs: seq<int>)
    requires forall i :: 0 <= i < |code| ==> StraightLine(code[i].ins)
    ensures var r := Run(Seeded(isStatic, parmRegs, length, [], monitorSyncPCs), code);
            |r.blocks| == 1 && ReportsTree(r.blocks, 0, {}, r.ignoreRegs) == multiset{}
  {
    var r := Run(Seeded(isStatic, parmRegs, length, [], monitorSyncPCs), code);
    RunKeepsRoot(Seeded(isStatic, parmRegs, length, [], monitorSyncPCs), code);
    ReportedRegsBounds(r.blocks, 0, {}, r.ignoreRegs);
  }

  // ---------------------------------------------------------------------
  // Switches
  // ---------------------------------------------------------------------

  /**
   * A switch adds one case block between each pair of consecutive targets,
   * in ascending target order, keeps every block and every access already
   * there, and remembers every target; the targets are the absolute case
   * targets and the default target.
   */
  lemma SwitchCases(s: Session, pc: int, offsets: seq<int>, defaultOffset: int)
    requires Consistent(s)
    ensures var ts := SwitchTargetList(offsets, defaultOffset, pc);
            var r := SwitchStep(s, pc, offsets, defaultOffset);
            && Ascending(ts)
            && |r.blocks| == |s.blocks| + |ts| - 1
            && CasesFrom(s.blocks, r.blocks, ts, 1)
            && AccessesKept(s.blocks, r.blocks) && RangesKept(s.blocks, r.blocks)
            && (forall t :: t in r.switchTargets <==> t in s.switchTargets || t == defaultOffset + pc
                                                      || exists i :: 0 <= i < |offsets| && t == offsets[i] + pc)
  {
    TargetListContents(offsets, defaultOffset, pc);
  }

  // ---------------------------------------------------------------------
  // Backward branches
  // ---------------------------------------------------------------------

  /**
   * A backward branch climbs from `sb` to an ancestor that starts at or
   * after the target (unless it stays at `sb`), and stops below the first
   * ancestor starting before the target, or at the root.
   */
  lemma {:induction false} ClimbToSpec(bs: seq<Block>, sb: int, target: int)
    requires WellFormed(bs) && 0 <= sb < |bs|
    ensures var top := ClimbTo(bs, sb, target);
            && Below(bs, sb, top)
            && (top == sb || bs[top].start >= target)
            && (bs[top].parent < 0 || bs[bs[top].parent].start < target)
    decreases sb
  {
    var p := bs[sb].parent;
    if p >= 0 && bs[p].start >= target {
      ClimbToSpec(bs, p, target);
    }
  }

  // ---------------------------------------------------------------------
  // Monitors
  // ---------------------------------------------------------------------

  /** A monitor exit right after a monitor enter leaves the stack of monitor locations as it was. */
  lemma MonitorBalanced(s: Session, pc: int, exitPC: int)
    requires Consistent(s)
    ensures MonitorExitStep(MonitorEnterStep(s, pc), exitPC).monitorSyncPCs == s.monitorSyncPCs
  {
    var s1 := MonitorEnterStep(s, pc);
    assert s1.monitorSyncPCs == s.monitorSyncPCs + [pc];
    assert (s.monitorSyncPCs + [pc])[..|s.monitorSyncPCs|] == s.monitorSyncPCs;
  }
}
