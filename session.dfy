// What one pass of the detector over a method's bytecode does, stated on
// values: the per-method session state, one function per instruction
// handler, the per-instruction step, the seeded start state and the run
// over a whole instruction sequence. The class in module Detector is
// proved to follow these functions; the lemmas here state what the
// handlers promise.

module Sessions {
  import opened Common
  import opened Risk
  import opened ScopeBlocks
  import opened TreeQueries
  import opened ScopeTrees
  import opened SwitchTargets

  /**
   * One instruction as the handlers see it. Operands that the detector
   * reads from the operand stack or the local variable table arrive
   * already resolved: for a store, the declared type of the register
   * and the user object carried by the stored value; for an instance call,
   * the register or field the receiver was loaded from.
   */
  datatype Instr =
    | Store(reg: nat, declaredSig: Option<string>, stored: Option<UserObject>)
    | Iinc(reg: nat)
    | Load(reg: nat)
    | Branch(isGoto: bool, target: int, nextPC: int)
    | Switch(offsets: seq<int>, defaultOffset: int)
    | InstanceCall(call: MethodRef, caller: Option<CallerKey>)
    | StaticCall(call: MethodRef)
    | MonitorEnter
    | MonitorExit
    | Dup
    | AconstNull
    | Other

  /** An instruction at its location in the method's code. */
  datatype Located = At(pc: int, ins: Instr)

  /** The detector's state while it walks one method. */
  datatype Session = Session(
    ignoreRegs: set<nat>,
    blocks: seq<Block>,
    tryBlocks: set<int>,
    catchHandlers: set<int>,
    switchTargets: set<int>,
    monitorSyncPCs: seq<int>,
    exceptions: seq<ExceptionEntry>,
    dontReport: bool,
    sawDup: bool,
    sawNull: bool)

  /** No block associates a register with a call receiver: stores only ever associate stored values. */
  ghost predicate NoCallerAssocs(bs: seq<Block>)
  {
    forall x, k :: 0 <= x < |bs| && k in bs[x].assocs ==> !k.CallerAssoc?
  }

  /** The invariant every handler keeps: a well-formed arena without receiver associations. */
  ghost predicate Consistent(s: Session)
  {
    WellFormed(s.blocks) && NoCallerAssocs(s.blocks)
  }

  /** Pruning stores, as the report walk does, keeps the invariant. */
  lemma PrunedConsistent(bs: seq<Block>, bs': seq<Block>)
    requires WellFormed(bs) && NoCallerAssocs(bs) && WellFormed(bs') && |bs'| == |bs|
    requires forall x :: 0 <= x < |bs| ==> StoresPruned(bs[x], bs'[x])
    ensures NoCallerAssocs(bs')
  {
    forall x, k | 0 <= x < |bs'| && k in bs'[x].assocs ensures !k.CallerAssoc? {
      assert StoresPruned(bs[x], bs'[x]);
      assert k in bs[x].assocs;
    }
  }

  /** The association key of a stored value: its user object, or the null key when it carries none. */
  function StoreKey(stored: Option<UserObject>): (k: AssocKey)
    ensures !k.CallerAssoc?
  {
    if stored.Some? then TagAssoc(stored.value) else NullAssoc
  }

  /** Replacing one block by one of the same place in the tree and without receiver associations keeps the invariant. */
  lemma Retouched(bs: seq<Block>, h: int, b: Block)
    requires WellFormed(bs) && NoCallerAssocs(bs) && 0 <= h < |bs|
    requires b.parent == bs[h].parent && b.children == bs[h].children && b.hasChildren == bs[h].hasChildren
    requires forall k :: k in b.assocs ==> !k.CallerAssoc?
    ensures WellFormed(bs[h := b]) && NoCallerAssocs(bs[h := b])
  {
    SameShapeWellFormed(bs, bs[h := b]);
  }

  /** Adding a new block below the root keeps the invariant. */
  lemma AttachedConsistent(bs: seq<Block>, nb: Block)
    requires WellFormed(bs) && NoCallerAssocs(bs) && IsNew(nb)
    ensures NoCallerAssocs(Attached(bs, 0, nb))
  {
    var r := Attached(bs, 0, nb);
    AttachedKeeps(bs, 0, nb);
    forall x, k | 0 <= x < |r| && k in r[x].assocs
      ensures !k.CallerAssoc?
    {
      if x < |bs| {
        assert r[x].assocs == bs[x].assocs;
      }
    }
  }

  // ---------------------------------------------------------------------
  // Building blocks shared by several handlers
  // ---------------------------------------------------------------------

  /** `rootScopeBlock.addChild(nb)`. */
  ghost function Attach(s: Session, nb: Block): (r: Session)
    requires Consistent(s) && IsNew(nb)
    ensures Consistent(r) && r == s.(blocks := r.blocks)
  {
    AttachedConsistent(s.blocks, nb);
    s.(blocks := Attached(s.blocks, 0, nb))
  }

  /** Marks `reg` as never reported. */
  function Ignore(s: Session, reg: nat): Session
  {
    s.(ignoreRegs := s.ignoreRegs + {reg})
  }

  /** Records a store of `reg` at `pc` in block `sb` under `key`, and also a load when the previous instruction was a DUP. */
  ghost function RecordStore(s: Session, sb: int, reg: nat, pc: int, key: AssocKey): (r: Session)
    requires Consistent(s) && 0 <= sb < |s.blocks| && !key.CallerAssoc?
    ensures Consistent(r) && r == s.(blocks := r.blocks)
  {
    var b := s.blocks[sb];
    Retouched(s.blocks, sb, b.(stores := b.stores[reg := pc], assocs := b.assocs[key := reg]));
    var bs := WithStore(s.blocks, sb, reg, pc, key);
    if s.sawDup then
      Retouched(bs, sb, bs[sb].(loads := bs[sb].loads[reg := pc]));
      s.(blocks := WithLoad(bs, sb, reg, pc))
    else s.(blocks := bs)
  }

  /** Records a load of `reg` at `pc` in the innermost block around `pc`; a register used outside every block is ignored. */
  ghost function LoadOrIgnore(s: Session, pc: int, reg: nat): (r: Session)
    requires Consistent(s)
    ensures Consistent(r) && r == s.(blocks := r.blocks, ignoreRegs := r.ignoreRegs)
  {
    match FindScopeBlock(s.blocks, 0, pc)
    case None => Ignore(s, reg)
    case Some(sb) =>
      Retouched(s.blocks, sb, s.blocks[sb].(loads := s.blocks[sb].loads[reg := pc]));
      s.(blocks := WithLoad(s.blocks, sb, reg, pc))
  }

  // ---------------------------------------------------------------------
  // The handlers
  // ---------------------------------------------------------------------

  /**
   * A store at an exception handler's entry: the innermost block around
   * `pc + 1`, when it started before `pc`, ends at `pc - 1`, and the rest
   * of it becomes a block of its own from `pc`.
   */
  ghost function SplitAtHandler(s: Session, pc: int): (r: Session)
    requires Consistent(s)
    ensures Consistent(r) && r == s.(blocks := r.blocks)
  {
    match FindScopeBlock(s.blocks, 0, pc + 1)
    case None => s
    case Some(c) =>
      if s.blocks[c].start < pc then
        Retouched(s.blocks, c, s.blocks[c].(finish := pc - 1));
        Attach(s.(blocks := s.blocks[c := s.blocks[c].(finish := pc - 1)]), NewBlock(pc, s.blocks[c].finish))
      else s
  }

  /** The conditions under which a store makes its register unreportable before anything is recorded. */
  predicate StoreIgnoredUpFront(s: Session, pc: int, declaredSig: Option<string>)
  {
    pc in s.catchHandlers || |s.monitorSyncPCs| > 0 || s.sawNull || IsRiskyStoreClass(declaredSig)
  }

  /** `sawStore`. */
  ghost function StoreStep(s: Session, pc: int, reg: nat, declaredSig: Option<string>, stored: Option<UserObject>): (r: Session)
    requires Consistent(s)
    ensures Consistent(r)
  {
    var s1 := if pc in s.catchHandlers then SplitAtHandler(s, pc) else s;
    var s2 := if StoreIgnoredUpFront(s, pc, declaredSig) then Ignore(s1, reg) else s1;
    StoreOrIgnore(s2, pc, reg, stored)
  }

  /** The recording half of `sawStore`: a store of a register not yet ignored, in the innermost block around `pc`. */
  ghost function StoreOrIgnore(s: Session, pc: int, reg: nat, stored: Option<UserObject>): (r: Session)
    requires Consistent(s)
    ensures Consistent(r)
  {
    if reg in s.ignoreRegs then s
    else
      match FindScopeBlock(s.blocks, 0, pc)
      case None => Ignore(s, reg)
      case Some(sb) =>
        if stored.Some? && stored.value.isRisky then Ignore(s, reg)
        else RecordStore(s, sb, reg, pc, StoreKey(stored))
  }

  /** `sawIINC`: a load, then a store without an associated value. */
  ghost function IincStep(s: Session, pc: int, reg: nat): (r: Session)
    requires Consistent(s)
    ensures Consistent(r)
  {
    var s1 := if reg in s.ignoreRegs then s else LoadOrIgnore(s, pc, reg);
    var s2 := if pc in s.catchHandlers || |s.monitorSyncPCs| > 0 || s.sawNull then Ignore(s1, reg) else s1;
    if reg in s2.ignoreRegs then s2
    else
      match FindScopeBlock(s2.blocks, 0, pc)
      case None => Ignore(s2, reg)
      case Some(sb) => RecordStore(s2, sb, reg, pc, NullAssoc)
  }

  /** `sawLoad`. */
  ghost function LoadStep(s: Session, pc: int, reg: nat): (r: Session)
    requires Consistent(s)
    ensures Consistent(r)
  {
    if reg in s.ignoreRegs then s else LoadOrIgnore(s, pc, reg)
  }

  /** A block a forward conditional branch may take over: no loop, no case, never given children. */
  predicate Absorbable(b: Block)
  {
    !b.isLoop && !b.isCase && !b.hasChildren
  }

  /**
   * A forward conditional branch onto the end of block `sb`: a goto block
   * hands its accesses up, leaves its parent's children and is replaced by
   * a block from the branch; any other block hands its accesses up and is
   * stretched back to start at the branch.
   */
  ghost function AbsorbBlock(s: Session, sb: int, pc: int, target: int): (r: Session)
    requires Consistent(s) && 0 <= sb < |s.blocks|
    ensures Consistent(r) && r == s.(blocks := r.blocks)
  {
    var bs1 := PushedUp(s.blocks, sb);
    PushedUpConsistent(s.blocks, sb);
    if s.blocks[sb].isGoto then
      var p := s.blocks[sb].parent;
      if p >= 0 then
        DetachConsistent(bs1, p, sb);
        Attach(s.(blocks := bs1[p := bs1[p].(children := RemoveFirst(bs1[p].children, sb))]), NewBlock(pc, target))
      else Attach(s.(blocks := bs1), NewBlock(pc, target))
    else
      Retouched(bs1, sb, bs1[sb].(start := pc));
      s.(blocks := bs1[sb := bs1[sb].(start := pc)])
  }

  /** Moving accesses up keeps the invariant: associations do not move. */
  lemma PushedUpConsistent(bs: seq<Block>, h: int)
    requires WellFormed(bs) && NoCallerAssocs(bs) && 0 <= h < |bs|
    ensures NoCallerAssocs(PushedUp(bs, h))
  {
    var r := PushedUp(bs, h);
    PushedUpSpec(bs, h);
    forall x, k | 0 <= x < |r| && k in r[x].assocs
      ensures !k.CallerAssoc?
    {
      assert r[x].assocs == bs[x].assocs;
    }
  }

  /** Dropping a child from a children list keeps the invariant. */
  lemma DetachConsistent(bs: seq<Block>, p: int, c: int)
    requires WellFormed(bs) && NoCallerAssocs(bs) && 0 <= p < |bs|
    ensures WellFormed(bs[p := bs[p].(children := RemoveFirst(bs[p].children, c))])
    ensures NoCallerAssocs(bs[p := bs[p].(children := RemoveFirst(bs[p].children, c))])
  {
    RemoveFirstDistinct(bs[p].children, c);
    ShorterListWellFormed(bs, p, RemoveFirst(bs[p].children, c));
  }

  /**
   * The block a backward branch's loop climbs to from `sb`: up through the
   * ancestors for as long as the parent starts at or after the target.
   */
  ghost function ClimbTo(bs: seq<Block>, sb: int, target: int): (r: int)
    requires WellFormed(bs) && 0 <= sb < |bs|
    ensures 0 <= r <= sb
    decreases sb
  {
    var p := bs[sb].parent;
    if p >= 0 && bs[p].start >= target then ClimbTo(bs, p, target) else sb
  }

  /**
   * The block a backward branch marks as a loop: the block climbed to, or
   * its previous sibling when the block climbed to starts after the target
   * and the sibling starts at or after it.
   */
  ghost function LoopHead(bs: seq<Block>, sb: int, target: int): (r: int)
    requires WellFormed(bs) && 0 <= sb < |bs|
    ensures 0 <= r < |bs|
  {
    var top := ClimbTo(bs, sb, target);
    if bs[top].start > target then
      match PreviousSibling(bs, top)
      case Some(prev) => if bs[prev].start >= target then prev else top
      case None => top
    else top
  }

  /** `sawBranch`: `isGoto` for GOTO and GOTO_W, `nextPC` the location of the next instruction. */
  ghost function BranchStep(s: Session, pc: int, isGoto: bool, target: int, nextPC: int): (r: Session)
    requires Consistent(s)
    ensures Consistent(r) && r == s.(blocks := r.blocks)
  {
    if target > pc then
      if isGoto then
        if nextPC in s.switchTargets then s
        else if FindScopeBlockWithTarget(s.blocks, 0, pc, nextPC).None? then
          Attach(s, NewBlock(pc, target).(isLoop := true, isGoto := true))
        else
          Attach(s, NewBlock(nextPC, target).(isGoto := true))
      else
        match FindScopeBlockWithTarget(s.blocks, 0, pc, target)
        case Some(sb) =>
          if Absorbable(s.blocks[sb]) then AbsorbBlock(s, sb, pc, target)
          else Attach(s, NewBlock(pc, target))
        case None => Attach(s, NewBlock(pc, target))
    else
      match FindScopeBlock(s.blocks, 0, pc)
      case None => s
      case Some(sb) =>
        var l := LoopHead(s.blocks, sb, target);
        Retouched(s.blocks, l, s.blocks[l].(isLoop := true));
        s.(blocks := s.blocks[l := s.blocks[l].(isLoop := true)])
  }

  /** The blocks of `bs` keep their loads and stores in `bs'`, and the blocks added after them have none. */
  ghost predicate AccessesKept(bs: seq<Block>, bs': seq<Block>)
  {
    && |bs| <= |bs'|
    && (forall x :: 0 <= x < |bs| ==> bs'[x].loads == bs[x].loads && bs'[x].stores == bs[x].stores)
    && (forall x :: |bs| <= x < |bs'| ==> bs'[x].loads == map[] && bs'[x].stores == map[])
  }

  /** Attaching a new block keeps every recorded access and adds none. */
  lemma AttachKeepsAccesses(s: Session, nb: Block)
    requires Consistent(s) && IsNew(nb)
    ensures AccessesKept(s.blocks, Attach(s, nb).blocks)
  {
    AttachedKeepsAccesses(s.blocks, nb);
  }

  /** `AttachKeepsAccesses` on the arena alone. */
  lemma AttachedKeepsAccesses(bs: seq<Block>, nb: Block)
    requires WellFormed(bs) && |bs| > 0 && IsNew(nb)
    ensures AccessesKept(bs, Attached(bs, 0, nb))
  {
    var r := Attached(bs, 0, nb);
    AttachedKeeps(bs, 0, nb);
    forall x | 0 <= x < |bs|
      ensures r[x].loads == bs[x].loads && r[x].stores == bs[x].stores
    {
      assert r[x] == bs[x].(children := r[x].children, hasChildren := r[x].hasChildren);
    }
    assert r[|bs|].loads == nb.loads && r[|bs|].stores == nb.stores;
  }

  /** Keeping accesses is transitive. */
  lemma KeptTransitive(a: seq<Block>, b: seq<Block>, c: seq<Block>)
    requires AccessesKept(a, b) && AccessesKept(b, c)
    ensures AccessesKept(a, c)
  {
  }

  /** The blocks of `bs` keep their ranges and case flags in `bs'`. */
  ghost predicate RangesKept(bs: seq<Block>, bs': seq<Block>)
  {
    && |bs| <= |bs'|
    && forall x :: 0 <= x < |bs| ==> bs'[x].start == bs[x].start && bs'[x].finish == bs[x].finish && bs'[x].isCase == bs[x].isCase
  }

  /**
   * The blocks `r` has beyond `bs` are the case blocks between consecutive
   * targets from position `i` on, in target order: each starts at one
   * target and ends no later than the next.
   */
  ghost predicate CasesFrom(bs: seq<Block>, r: seq<Block>, ts: seq<int>, i: nat)
    requires 1 <= i
  {
    && |r| == |bs| + (if i < |ts| then |ts| - i else 0)
    && forall k :: |bs| <= k < |r| ==> r[k].start == ts[k - |bs| + i - 1] && r[k].finish <= ts[k - |bs| + i] && r[k].isCase
  }

  /** Attaching a case block keeps every block's range and accesses and appends the case block, its finish perhaps clipped. */
  lemma AttachCaseKeeps(s: Session, nb: Block)
    requires Consistent(s) && IsNew(nb)
    ensures var bs := Attach(s, nb).blocks;
            && AccessesKept(s.blocks, bs) && RangesKept(s.blocks, bs) && |bs| == |s.blocks| + 1
            && bs[|s.blocks|].start == nb.start && bs[|s.blocks|].finish <= nb.finish && bs[|s.blocks|].isCase == nb.isCase
  {
    AttachedKeeps(s.blocks, 0, nb);
  }

  /** A case block in front of the later ones: the cases from `i` on. */
  lemma CasesStep(bs: seq<Block>, bs1: seq<Block>, r: seq<Block>, ts: seq<int>, i: nat)
    requires 1 <= i < |ts| && |bs1| == |bs| + 1
    requires bs1[|bs|].start == ts[i - 1] && bs1[|bs|].finish <= ts[i] && bs1[|bs|].isCase
    requires RangesKept(bs1, r) && CasesFrom(bs1, r, ts, i + 1)
    ensures CasesFrom(bs, r, ts, i)
  {
    assert r[|bs|] == r[|bs1| - 1];
  }

  /** The case blocks between consecutive switch targets, from position `i` of the target list on. */
  ghost function AddCases(s: Session, ts: seq<int>, i: nat): (r: Session)
    requires Consistent(s) && 1 <= i
    ensures Consistent(r) && r == s.(blocks := r.blocks)
    ensures AccessesKept(s.blocks, r.blocks) && RangesKept(s.blocks, r.blocks)
    ensures CasesFrom(s.blocks, r.blocks, ts, i)
    decreases |ts| - i
  {
    if i >= |ts| then s
    else
      var nb := NewBlock(ts[i - 1], ts[i]).(isCase := true);
      var s1 := Attach(s, nb);
      AttachCaseKeeps(s, nb);
      var r := AddCases(s1, ts, i + 1);
      KeptTransitive(s.blocks, s1.blocks, r.blocks);
      CasesStep(s.blocks, s1.blocks, r.blocks, ts, i);
      r
  }

  /** The targets as a set. */
  function TargetSet(ts: seq<int>): set<int>
  {
    set t | t in ts
  }

  /** `sawSwitch`, for a table or lookup switch with the given offsets. */
  ghost function SwitchStep(s: Session, pc: int, offsets: seq<int>, defaultOffset: int): (r: Session)
    requires Consistent(s)
    ensures Consistent(r)
  {
    var ts := SwitchTargetList(offsets, defaultOffset, pc);
    var s1 := AddCases(s, ts, 1);
    s1.(switchTargets := s1.switchTargets + TargetSet(ts))
  }

  /** The user object a non-void call leaves on the stack, identified by its call site. */
  function CallResult(pc: int, call: MethodRef, caller: Option<CallerKey>): Option<UserObject>
  {
    if ReturnsVoid(call.sig) then None else Some(UserObject(pc, caller, IsRiskyMethodCall(call)))
  }

  /** `sawInstanceCall`, with the user object it returns. */
  ghost function InstanceCallStep(s: Session, pc: int, call: MethodRef, caller: Option<CallerKey>): (r: (Session, Option<UserObject>))
    requires Consistent(s)
    ensures Consistent(r.0) && r.1 == CallResult(pc, call, caller)
  {
    var s1 := if IsWasNullCall(call) then s.(dontReport := true) else s;
    if ReturnsVoid(call.sig) || caller.None? then (s1, CallResult(pc, call, caller))
    else
      match FindScopeBlock(s1.blocks, 0, pc)
      case None => (s1, CallResult(pc, call, caller))
      case Some(sb) =>
        ForgetCallerIsNoop(s1.blocks, sb, caller.value);
        (s1.(blocks := Forgotten(s1.blocks, sb, CallerAssoc(caller.value))), CallResult(pc, call, caller))
  }

  /** `sawMonitorEnter`: the location is pushed and a synchronized block opened to the end of the code. */
  ghost function MonitorEnterStep(s: Session, pc: int): (r: Session)
    requires Consistent(s)
    ensures Consistent(r) && r == s.(blocks := r.blocks, monitorSyncPCs := r.monitorSyncPCs)
  {
    Attach(s.(monitorSyncPCs := s.monitorSyncPCs + [pc]), NewBlock(pc, IntMax).(isSync := true))
  }

  /**
   * `sawMonitorExit`: the synchronized block found from the root now ends
   * here, and the last pushed location is popped.
   */
  ghost function MonitorExitStep(s: Session, pc: int): (r: Session)
    requires Consistent(s)
    ensures Consistent(r) && r == s.(blocks := r.blocks, monitorSyncPCs := r.monitorSyncPCs)
  {
    if |s.monitorSyncPCs| > 0 then
      var m := SyncFrom(s.blocks, 0);
      Retouched(s.blocks, m, s.blocks[m].(finish := pc));
      s.(blocks := s.blocks[m := s.blocks[m].(finish := pc)], monitorSyncPCs := s.monitorSyncPCs[..|s.monitorSyncPCs| - 1])
    else s
  }

  /** The try block opened at the start of a protected range, up to its handler. */
  ghost function OpenTry(s: Session, pc: int): (r: Session)
    requires Consistent(s)
    ensures Consistent(r) && r == s.(blocks := r.blocks)
  {
    if pc in s.tryBlocks then Attach(s, NewBlock(pc, FindCatchHandlerFor(s.exceptions, pc)).(isTry := true))
    else s
  }

  /** The handler an instruction is dispatched to, with the user object it returns. */
  ghost function Dispatch(s: Session, pc: int, ins: Instr): (r: (Session, Option<UserObject>))
    requires Consistent(s)
    ensures Consistent(r.0)
  {
    match ins
    case Store(reg, declaredSig, stored) => (StoreStep(s, pc, reg, declaredSig, stored), None)
    case Iinc(reg) => (IincStep(s, pc, reg), None)
    case Load(reg) => (LoadStep(s, pc, reg), None)
    case Branch(isGoto, target, nextPC) => (BranchStep(s, pc, isGoto, target, nextPC), None)
    case Switch(offsets, defaultOffset) => (SwitchStep(s, pc, offsets, defaultOffset), None)
    case InstanceCall(call, caller) => InstanceCallStep(s, pc, call, caller)
    case StaticCall(call) => (s, CallResult(pc, call, None))
    case MonitorEnter => (MonitorEnterStep(s, pc), None)
    case MonitorExit => (MonitorExitStep(s, pc), None)
    case Dup => (s, None)
    case AconstNull => (s, None)
    case Other => (s, None)
  }

  /** `sawOpcode`: a try block when a protected range starts here, the handler, then the DUP and ACONST_NULL flags. */
  ghost function Step(s: Session, pc: int, ins: Instr): (r: (Session, Option<UserObject>))
    requires Consistent(s)
    ensures Consistent(r.0)
  {
    var d := Dispatch(OpenTry(s, pc), pc, ins);
    (d.0.(sawDup := ins.Dup?, sawNull := ins.AconstNull?), d.1)
  }

  /** The session after the handlers have seen every instruction of `code`, in order. */
  ghost function Run(s: Session, code: seq<Located>): (r: Session)
    requires Consistent(s)
    ensures Consistent(r)
  {
    if code == [] then s
    else
      var last := code[|code| - 1];
      Step(Run(s, code[..|code| - 1]), last.pc, last.ins).0
  }

  /** The registers set aside before the walk: the receiver of an instance method and the parameters. */
  function SeededIgnores(isStatic: bool, parmRegs: seq<nat>): set<nat>
  {
    (if isStatic then {} else {0}) + (set p | p in parmRegs)
  }

  /** `visitCode`'s state before the first instruction; the monitor stack is carried over from the previous method. */
  function Seeded(isStatic: bool, parmRegs: seq<nat>, length: int, exceptions: seq<ExceptionEntry>, monitorSyncPCs: seq<int>): (s: Session)
    ensures Consistent(s)
  {
    Session(SeededIgnores(isStatic, parmRegs), [NewBlock(0, length)], TryStarts(exceptions), HandlerStarts(exceptions),
            {}, monitorSyncPCs, exceptions, false, false, false)
  }

  /** The locations where a protected range starts. */
  function TryStarts(exceptions: seq<ExceptionEntry>): set<int>
  {
    set e | e in exceptions :: e.startPC as int
  }

  /** The locations of the exception handlers. */
  function HandlerStarts(exceptions: seq<ExceptionEntry>): set<int>
  {
    set e | e in exceptions :: e.handlerPC as int
  }

  /** Looking up a receiver's association finds nothing when no block associates receivers. */
  lemma ForgetCallerIsNoop(bs: seq<Block>, sb: int, caller: CallerKey)
    requires NoCallerAssocs(bs) && 0 <= sb < |bs|
    ensures Forgotten(bs, sb, CallerAssoc(caller)) == bs
  {
    var k := CallerAssoc(caller);
    assert k in bs[sb].assocs ==> !k.CallerAssoc?;
  }
}
