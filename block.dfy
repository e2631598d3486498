/**
 * The hopper65 code-generation state engine (crates/hopper65/src/block.rs).
 *
 * A state pairs a residency map (logical value -> register believed to hold it and the
 * index of the instruction that put it there) with the instructions emitted so far.
 * The value view `State` is what `On` produces and what sets of alternatives hold;
 * `MutState` holds the operations that the source performs in place on a state.
 */
module Block {
  import opened Arith

  /** The three physical registers (crates/hopper65/src/lib.rs). */
  datatype Reg = A | X | Y

  /** The three instruction shapes the engine emits. */
  datatype Inst =
    | StoreArg(reg: Reg, fwd: nat)      // store `reg` into the operand of the instruction `fwd` slots ahead
    | LoadConst(reg: Reg, value: Byte)  // load an immediate into `reg`
    | Transfer(from: Reg, to: Reg)      // copy `from` into `to`

  /** A request: reuse the value named `v`, or load the constant `a`. */
  datatype Op<V> = Just(v: V) | Const(a: Byte)

  /** Where a logical value lives: a register and the index of the instruction that set it. */
  datatype Residency = Residency(reg: Reg, idx: nat)

  datatype State<V(==)> = State(regmap: map<V, Residency>, insts: seq<Inst>)

  /** Does instruction `i` overwrite register `reg`?  A self-transfer does not. */
  predicate Sets(i: Inst, reg: Reg) {
    match i
    case LoadConst(r, _) => r == reg
    case Transfer(from, to) => to == reg && from != reg
    case StoreArg(_, _) => false
  }

  /**
   * The backward scan of `sets_at`: is `reg` overwritten anywhere in `insts[lim..]`?
   * It looks at the last instruction first and then at the shorter prefix.
   */
  function SetsFrom(insts: seq<Inst>, lim: nat, reg: Reg): (b: bool)
    requires lim <= |insts|
    ensures lim == |insts| ==> !b
    decreases |insts|
  {
    if |insts| == lim then false
    else Sets(insts[|insts| - 1], reg) || SetsFrom(insts[..|insts| - 1], lim, reg)
  }

  /** The scan answers exactly "some instruction in [lim, len) sets reg". */
  lemma {:induction false} SetsFromIff(insts: seq<Inst>, lim: nat, reg: Reg)
    requires lim <= |insts|
    ensures SetsFrom(insts, lim, reg) <==> exists k :: lim <= k < |insts| && Sets(insts[k], reg)
    decreases |insts|
  {
    if |insts| > lim {
      var front := insts[..|insts| - 1];
      SetsFromIff(front, lim, reg);
      if SetsFrom(front, lim, reg) {
        var k :| lim <= k < |front| && Sets(front[k], reg);
        assert insts[k] == front[k];
      }
      if exists k :: lim <= k < |insts| && Sets(insts[k], reg) {
        var k :| lim <= k < |insts| && Sets(insts[k], reg);
        if k < |front| {
          assert front[k] == insts[k];
        }
      }
    }
  }

  /**
   * The state invariant: every residency index is a valid instruction index, and the
   * instruction there is one that sets the named register.
   */
  ghost predicate Valid<V>(s: State<V>) {
    forall k :: k in s.regmap ==>
      s.regmap[k].idx < |s.insts| && Sets(s.insts[s.regmap[k].idx], s.regmap[k].reg)
  }

  /** The effect of the `fwd += 1` loop on one instruction before the insertion point. */
  function Bump(i: Inst): Inst {
    if i.StoreArg? then StoreArg(i.reg, i.fwd + 1) else i
  }

  /** The effect of the `regmap.values_mut()` loop on one residency entry. */
  function Shift(e: Residency, orig: nat): Residency {
    if e.idx >= orig then Residency(e.reg, e.idx + 1) else e
  }

  /**
   * `add_patch(orig, reg, target)`: insert a deferred store of `reg` at `orig`, append a
   * placeholder load into `target`, and renumber forward distances and residency indices.
   */
  function Patched<V(==)>(s: State<V>, orig: nat, reg: Reg, target: Reg): (r: State<V>)
    requires orig <= |s.insts|
    ensures |r.insts| == |s.insts| + 2
    ensures r.insts[orig] == StoreArg(reg, |s.insts| + 1 - orig)
    ensures orig + r.insts[orig].fwd == |r.insts| - 1
    ensures r.insts[|r.insts| - 1] == LoadConst(target, 0)
    ensures r.regmap.Keys == s.regmap.Keys
  {
    var n := |s.insts|;
    var front := seq(orig, k requires 0 <= k < orig => Bump(s.insts[k]));
    State(map k | k in s.regmap :: Shift(s.regmap[k], orig),
          front + [StoreArg(reg, n + 1 - orig)] + s.insts[orig..] + [LoadConst(target, 0)])
  }

  /**
   * The renumbering `add_patch` performs: instructions from `orig` on move one slot up,
   * stores before it reach one slot further, other instructions are kept, and entries
   * keep their register while those at or after `orig` move one index up.
   */
  lemma PatchedShape<V>(s: State<V>, orig: nat, reg: Reg, target: Reg)
    requires orig <= |s.insts|
    ensures var r := Patched(s, orig, reg, target);
    && (forall k :: orig <= k < |s.insts| ==> r.insts[k + 1] == s.insts[k])
    && (forall k :: 0 <= k < orig && !s.insts[k].StoreArg? ==> r.insts[k] == s.insts[k])
    && (forall k :: 0 <= k < orig && s.insts[k].StoreArg? ==>
         r.insts[k] == StoreArg(s.insts[k].reg, s.insts[k].fwd + 1))
    && (forall k :: k in s.regmap ==> r.regmap[k].reg == s.regmap[k].reg)
    && (forall k :: k in s.regmap && s.regmap[k].idx >= orig ==> r.regmap[k].idx == s.regmap[k].idx + 1)
    && (forall k :: k in s.regmap && s.regmap[k].idx < orig ==> r.regmap[k].idx == s.regmap[k].idx)
  {
  }

  /** Patching keeps the state invariant: every entry still names an instruction that sets its register. */
  lemma PatchedValid<V>(s: State<V>, orig: nat, reg: Reg, target: Reg)
    requires Valid(s) && orig <= |s.insts|
    ensures Valid(Patched(s, orig, reg, target))
  {
    var r := Patched(s, orig, reg, target);
    PatchedShape(s, orig, reg, target);
    forall k | k in r.regmap
      ensures r.regmap[k].idx < |r.insts| && Sets(r.insts[r.regmap[k].idx], r.regmap[k].reg)
    {
      var e := s.regmap[k];
      if e.idx < orig {
        assert Sets(s.insts[e.idx], e.reg);
        assert !s.insts[e.idx].StoreArg?;
      }
    }
  }

  /** A successor of a clobbered reuse: rescue the value held in `or` at `oi` into `r`. */
  function Rescue<V(==)>(s: State<V>, dest: V, or: Reg, oi: nat, r: Reg): State<V>
    requires oi <= |s.insts|
  {
    var t := if SetsFrom(s.insts, oi, r) then Patched(s, oi, or, r)
             else State(s.regmap, s.insts + [Transfer(or, r)]);
    State(t.regmap[dest := Residency(r, |t.insts| - 1)], t.insts)
  }

  /** A successor of a constant load into `r`. */
  function Loaded<V(==)>(s: State<V>, dest: V, r: Reg, a: Byte): State<V> {
    State(s.regmap[dest := Residency(r, |s.insts|)], s.insts + [LoadConst(r, a)])
  }

  /**
   * `on(dest, op)`: the set of successor states.  A reuse of an unknown value has none;
   * a reuse whose register still holds the value aliases it; otherwise, and for a
   * constant, one successor per register.
   */
  function On<V(==)>(s: State<V>, dest: V, op: Op<V>): (r: set<State<V>>)
    requires op.Just? && op.v in s.regmap ==> s.regmap[op.v].idx <= |s.insts|
    ensures op.Just? && op.v !in s.regmap ==> r == {}
    ensures |r| <= 3
    ensures forall t :: t in r ==>
      (dest in t.regmap && s.regmap.Keys <= t.regmap.Keys && |s.insts| <= |t.insts|)
  {
    match op
    case Just(v) =>
      if v !in s.regmap then {}
      else
        var e := s.regmap[v];
        if SetsFrom(s.insts, e.idx, e.reg) then
          {Rescue(s, dest, e.reg, e.idx, A), Rescue(s, dest, e.reg, e.idx, X), Rescue(s, dest, e.reg, e.idx, Y)}
        else
          {State(s.regmap[dest := e], s.insts)}
    case Const(a) =>
      {Loaded(s, dest, A, a), Loaded(s, dest, X, a), Loaded(s, dest, Y, a)}
  }

  /** Free reuse: an unclobbered value is aliased and no instruction is emitted. */
  lemma OnAlias<V>(s: State<V>, dest: V, v: V)
    requires v in s.regmap && s.regmap[v].idx <= |s.insts|
    requires !SetsFrom(s.insts, s.regmap[v].idx, s.regmap[v].reg)
    ensures On(s, dest, Just(v)) == {State(s.regmap[dest := s.regmap[v]], s.insts)}
  {
  }

  /**
   * Clobbered reuse: exactly three successors, one per register `r`; each binds `dest`
   * to `r` at its last instruction, and its instructions are a patch when `r` was also
   * overwritten since the defining index, otherwise one appended transfer.
   */
  lemma OnClobbered<V>(s: State<V>, dest: V, v: V)
    requires v in s.regmap && s.regmap[v].idx <= |s.insts|
    requires SetsFrom(s.insts, s.regmap[v].idx, s.regmap[v].reg)
    ensures |On(s, dest, Just(v))| == 3
    ensures forall r: Reg :: Rescue(s, dest, s.regmap[v].reg, s.regmap[v].idx, r) in On(s, dest, Just(v))
    ensures forall t :: t in On(s, dest, Just(v)) ==>
      var e, r := s.regmap[v], t.regmap[dest].reg;
      && t.regmap[dest].idx == |t.insts| - 1
      && t.insts == (if SetsFrom(s.insts, e.idx, r) then Patched(s, e.idx, e.reg, r).insts
                     else s.insts + [Transfer(e.reg, r)])
  {
    var e := s.regmap[v];
    OnClobberedCount(s, dest, v);
    forall t | t in On(s, dest, Just(v))
      ensures t.regmap[dest].idx == |t.insts| - 1
      ensures t.insts == (if SetsFrom(s.insts, e.idx, t.regmap[dest].reg) then Patched(s, e.idx, e.reg, t.regmap[dest].reg).insts
                          else s.insts + [Transfer(e.reg, t.regmap[dest].reg)])
    {
      OnClobberedMember(s, dest, v, t);
      RescueShape(s, dest, e.reg, e.idx, t.regmap[dest].reg);
    }
  }

  /** The three rescues of a clobbered reuse are distinct, so there are exactly three successors. */
  lemma OnClobberedCount<V>(s: State<V>, dest: V, v: V)
    requires v in s.regmap && s.regmap[v].idx <= |s.insts|
    requires SetsFrom(s.insts, s.regmap[v].idx, s.regmap[v].reg)
    ensures |On(s, dest, Just(v))| == 3
    ensures forall r: Reg :: Rescue(s, dest, s.regmap[v].reg, s.regmap[v].idx, r) in On(s, dest, Just(v))
  {
    var e := s.regmap[v];
    var ta, tx, ty := Rescue(s, dest, e.reg, e.idx, A), Rescue(s, dest, e.reg, e.idx, X), Rescue(s, dest, e.reg, e.idx, Y);
    RescueDistinct(s, dest, e.reg, e.idx, A, X);
    RescueDistinct(s, dest, e.reg, e.idx, A, Y);
    RescueDistinct(s, dest, e.reg, e.idx, X, Y);
    Card3(ta, tx, ty);
    assert On(s, dest, Just(v)) == {ta, tx, ty};
    forall r: Reg ensures Rescue(s, dest, e.reg, e.idx, r) in On(s, dest, Just(v)) {
      if r == A {} else if r == X {} else {}
    }
  }

  /** Rescues into different registers bind `dest` differently. */
  lemma RescueDistinct<V>(s: State<V>, dest: V, or: Reg, oi: nat, r1: Reg, r2: Reg)
    requires oi <= |s.insts| && r1 != r2
    ensures Rescue(s, dest, or, oi, r1) != Rescue(s, dest, or, oi, r2)
  {
    RescueShape(s, dest, or, oi, r1);
    RescueShape(s, dest, or, oi, r2);
  }

  lemma Card3<T>(a: T, b: T, c: T)
    requires a != b && a != c && b != c
    ensures |{a, b, c}| == 3
  {
    assert {a, b, c} == {a, b} + {c} && c !in {a, b};
    assert {a, b} == {a} + {b} && b !in {a};
  }

  lemma RescueShape<V>(s: State<V>, dest: V, or: Reg, oi: nat, r: Reg)
    requires oi <= |s.insts|
    ensures var t := Rescue(s, dest, or, oi, r);
      && dest in t.regmap && t.regmap[dest] == Residency(r, |t.insts| - 1)
      && t.insts == (if SetsFrom(s.insts, oi, r) then Patched(s, oi, or, r).insts
                     else s.insts + [Transfer(or, r)])
  {
  }

  /**
   * Constant load: exactly three successors, each appending one load into a different
   * register and binding `dest` to it at the old length, all other entries unchanged.
   */
  lemma OnConst<V>(s: State<V>, dest: V, a: Byte)
    ensures |On(s, dest, Const(a))| == 3
    ensures forall r: Reg :: Loaded(s, dest, r, a) in On(s, dest, Const(a))
    ensures forall t :: t in On(s, dest, Const(a)) ==>
      && t.insts == s.insts + [LoadConst(t.regmap[dest].reg, a)]
      && t.regmap == s.regmap[dest := Residency(t.regmap[dest].reg, |s.insts|)]
  {
    var ta, tx, ty := Loaded(s, dest, A, a), Loaded(s, dest, X, a), Loaded(s, dest, Y, a);
    assert ta.regmap[dest].reg == A && tx.regmap[dest].reg == X && ty.regmap[dest].reg == Y;
    assert ta != tx && ta != ty && tx != ty;
    assert On(s, dest, Const(a)) == {ta, tx, ty};
    forall r: Reg ensures Loaded(s, dest, r, a) in On(s, dest, Const(a)) {
      if r == A {} else if r == X {} else {}
    }
  }

  /** Every successor of a valid state is valid. */
  lemma OnValid<V>(s: State<V>, dest: V, op: Op<V>)
    requires Valid(s)
    ensures forall t :: t in On(s, dest, op) ==> Valid(t)
  {
    match op
    case Just(v) =>
      if v in s.regmap {
        OnJustValid(s, dest, v);
      }
    case Const(a) =>
      forall t | t in On(s, dest, op) ensures Valid(t) {
        LoadedValid(s, dest, t.regmap[dest].reg, a);
      }
  }

  lemma OnJustValid<V>(s: State<V>, dest: V, v: V)
    requires Valid(s) && v in s.regmap
    ensures forall t :: t in On(s, dest, Just(v)) ==> Valid(t)
  {
    var e := s.regmap[v];
    forall t | t in On(s, dest, Just(v)) ensures Valid(t) {
      if SetsFrom(s.insts, e.idx, e.reg) {
        OnClobberedMember(s, dest, v, t);
        RescueValid(s, dest, e.reg, e.idx, t.regmap[dest].reg);
      } else {
        assert t == State(s.regmap[dest := e], s.insts);
      }
    }
  }

  /** Each successor of a clobbered reuse is the rescue into the register `dest` is bound to. */
  lemma OnClobberedMember<V>(s: State<V>, dest: V, v: V, t: State<V>)
    requires v in s.regmap && s.regmap[v].idx <= |s.insts|
    requires SetsFrom(s.insts, s.regmap[v].idx, s.regmap[v].reg)
    requires t in On(s, dest, Just(v))
    ensures dest in t.regmap && t == Rescue(s, dest, s.regmap[v].reg, s.regmap[v].idx, t.regmap[dest].reg)
  {
    var e := s.regmap[v];
    var ta, tx, ty := Rescue(s, dest, e.reg, e.idx, A), Rescue(s, dest, e.reg, e.idx, X), Rescue(s, dest, e.reg, e.idx, Y);
    assert t == ta || t == tx || t == ty;
    RescueShape(s, dest, e.reg, e.idx, A);
    RescueShape(s, dest, e.reg, e.idx, X);
    RescueShape(s, dest, e.reg, e.idx, Y);
  }

  lemma LoadedValid<V>(s: State<V>, dest: V, r: Reg, a: Byte)
    requires Valid(s)
    ensures Valid(Loaded(s, dest, r, a))
  {
    ValidAppend(s, LoadConst(r, a));
  }

  lemma RescueValid<V>(s: State<V>, dest: V, or: Reg, oi: nat, r: Reg)
    requires Valid(s) && oi <= |s.insts| && SetsFrom(s.insts, oi, or)
    ensures Valid(Rescue(s, dest, or, oi, r))
  {
    if SetsFrom(s.insts, oi, r) {
      RescuePatchValid(s, dest, or, oi, r);
    } else {
      RescueMoveValid(s, dest, or, oi, r);
    }
  }

  lemma RescuePatchValid<V>(s: State<V>, dest: V, or: Reg, oi: nat, r: Reg)
    requires Valid(s) && oi <= |s.insts| && SetsFrom(s.insts, oi, r)
    ensures Valid(Rescue(s, dest, or, oi, r))
  {
    var t := Patched(s, oi, or, r);
    assert Rescue(s, dest, or, oi, r) == State(t.regmap[dest := Residency(r, |t.insts| - 1)], t.insts);
    PatchedValid(s, oi, or, r);
    ValidBind(t, dest, r);
  }

  lemma RescueMoveValid<V>(s: State<V>, dest: V, or: Reg, oi: nat, r: Reg)
    requires Valid(s) && oi <= |s.insts| && SetsFrom(s.insts, oi, or) && !SetsFrom(s.insts, oi, r)
    ensures Valid(Rescue(s, dest, or, oi, r))
  {
    var t := State(s.regmap, s.insts + [Transfer(or, r)]);
    assert Rescue(s, dest, or, oi, r) == State(t.regmap[dest := Residency(r, |t.insts| - 1)], t.insts);
    assert r != or;
    ValidAppend(s, Transfer(or, r));
    ValidBind(t, dest, r);
  }

  /** Appending an instruction keeps every entry's index and instruction. */
  lemma ValidAppend<V>(s: State<V>, i: Inst)
    requires Valid(s)
    ensures Valid(State(s.regmap, s.insts + [i]))
  {
    var t := State(s.regmap, s.insts + [i]);
    forall k | k in t.regmap
      ensures t.regmap[k].idx < |t.insts| && Sets(t.insts[t.regmap[k].idx], t.regmap[k].reg)
    {
      assert t.insts[s.regmap[k].idx] == s.insts[s.regmap[k].idx];
    }
  }

  /** Binding a name to the last instruction keeps the invariant when that instruction sets the register. */
  lemma ValidBind<V>(t: State<V>, dest: V, r: Reg)
    requires Valid(t) && |t.insts| > 0 && Sets(t.insts[|t.insts| - 1], r)
    ensures Valid(State(t.regmap[dest := Residency(r, |t.insts| - 1)], t.insts))
  {
  }

  /**
   * From a valid state the scan at a residency's own index always succeeds (the
   * defining instruction itself sets the register), so a reuse request always emits
   * instructions and the aliasing branch of `On` is never taken.
   */
  lemma ReuseAlwaysClobbered<V>(s: State<V>, dest: V, v: V)
    requires Valid(s) && v in s.regmap
    ensures SetsFrom(s.insts, s.regmap[v].idx, s.regmap[v].reg)
    ensures forall t :: t in On(s, dest, Just(v)) ==> |t.insts| > |s.insts|
  {
    var e := s.regmap[v];
    SetsFromIff(s.insts, e.idx, e.reg);
    assert Sets(s.insts[e.idx], e.reg);
    OnClobbered(s, dest, v);
  }

  /**
   * `get_into_a(name)`: if `name` is resident, either patch at its index (storing A and
   * loading into the value's register, as the source passes them) when A was overwritten
   * since then, or append a transfer into A and rebind `name` to A.
   */
  function GotIntoA<V(==)>(s: State<V>, name: V): State<V>
    requires name in s.regmap ==> s.regmap[name].idx <= |s.insts|
  {
    if name !in s.regmap then s
    else
      var e := s.regmap[name];
      if SetsFrom(s.insts, e.idx, A) then Patched(s, e.idx, A, e.reg)
      else State(s.regmap[name := Residency(A, |s.insts|)], s.insts + [Transfer(e.reg, A)])
  }

  /**
   * What `get_into_a` promises of a valid state: the invariant is kept; when A was not
   * overwritten the value is moved into A by exactly one transfer from a different
   * register; otherwise two instructions are added and no entry is rebound.
   */
  lemma GotIntoAEffect<V>(s: State<V>, name: V)
    requires Valid(s) && name in s.regmap
    ensures Valid(GotIntoA(s, name))
    ensures var e, t := s.regmap[name], GotIntoA(s, name);
      if SetsFrom(s.insts, e.idx, A) then
        |t.insts| == |s.insts| + 2 && t.regmap.Keys == s.regmap.Keys && t.regmap[name].reg == e.reg
      else
        e.reg != A && t.insts == s.insts + [Transfer(e.reg, A)] && t.regmap[name] == Residency(A, |s.insts|)
  {
    var e := s.regmap[name];
    if SetsFrom(s.insts, e.idx, A) {
      PatchedValid(s, e.idx, A, e.reg);
    } else {
      SetsFromIff(s.insts, e.idx, A);
      assert Sets(s.insts[e.idx], e.reg);
      assert e.reg != A;
    }
  }

  /** Bumping the stores before `orig` in the spliced instructions gives the patched instructions. */
  lemma PatchedSplice<V>(s: State<V>, orig: nat, reg: Reg, target: Reg, mid: seq<Inst>, fin: seq<Inst>)
    requires orig <= |s.insts|
    requires mid == s.insts[..orig] + [StoreArg(reg, |s.insts| + 1 - orig)] + s.insts[orig..] + [LoadConst(target, 0)]
    requires |fin| == |mid| && fin[orig..] == mid[orig..]
    requires forall k :: 0 <= k < orig ==> fin[k] == Bump(mid[k])
    ensures fin == Patched(s, orig, reg, target).insts
  {
    var p := Patched(s, orig, reg, target).insts;
    assert fin[..orig] == p[..orig];
    assert fin[orig..] == p[orig..];
    assert fin == fin[..orig] + fin[orig..];
    assert p == p[..orig] + p[orig..];
  }

  /** A state whose fields are updated in place, as `&mut self` methods of the source do. */
  class MutState<V(==)> {
    var regmap: map<V, Residency>
    var insts: seq<Inst>

    function Value(): State<V>
      reads this
    {
      State(regmap, insts)
    }

    /** Clone of a state value. */
    constructor (s: State<V>)
      ensures Value() == s
    {
      regmap, insts := s.regmap, s.insts;
    }

    /** `sets_at`: scan backward from the last instruction down to `lim`. */
    method SetsAt(lim: nat, reg: Reg) returns (b: bool)
      requires lim <= |insts|
      ensures b == SetsFrom(insts, lim, reg)
      ensures b <==> exists k :: lim <= k < |insts| && Sets(insts[k], reg)
    {
      SetsFromIff(insts, lim, reg);
      var idx := |insts|;
      assert insts[..idx] == insts;
      while true
        invariant lim <= idx <= |insts|
        invariant SetsFrom(insts, lim, reg) == SetsFrom(insts[..idx], lim, reg)
        decreases idx
      {
        if idx == lim {
          return false;
        }
        assert insts[..idx][..idx - 1] == insts[..idx - 1];
        idx := idx - 1;
        match insts[idx]
        case LoadConst(r, _) =>
          if r == reg {
            return true;
          }
        case Transfer(from, to) =>
          if to == reg && from != reg {
            return true;
          }
        case StoreArg(_, _) =>
      }
    }

    /** `add_patch`: insert, append, then renumber in place. */
    method AddPatch(orig: nat, reg: Reg, target: Reg)
      requires orig <= |insts|
      modifies this
      ensures Value() == Patched(old(Value()), orig, reg, target)
    {
      ghost var s := Value();
      var l := |insts| + 1 - orig;
      insts := insts[..orig] + [StoreArg(reg, l)] + insts[orig..];
      insts := insts + [LoadConst(target, 0)];
      ghost var mid := insts;
      BumpStoresBefore(orig);
      ShiftEntriesFrom(orig);
      PatchedSplice(s, orig, reg, target, mid, insts);
    }

    /** The `iter_mut` loop of `add_patch`: add one to the `fwd` of every store before `orig`. */
    method BumpStoresBefore(orig: nat)
      requires orig <= |insts|
      modifies this
      ensures regmap == old(regmap) && |insts| == old(|insts|)
      ensures forall k :: 0 <= k < orig ==> insts[k] == Bump(old(insts[k]))
      ensures insts[orig..] == old(insts[orig..])
    {
      var i := 0;
      while i < orig
        invariant i <= orig && |insts| == old(|insts|) && regmap == old(regmap)
        invariant forall k :: 0 <= k < i ==> insts[k] == Bump(old(insts[k]))
        invariant forall k :: i <= k < |insts| ==> insts[k] == old(insts[k])
      {
        if insts[i].StoreArg? {
          insts := insts[i := StoreArg(insts[i].reg, insts[i].fwd + 1)];
        }
        i := i + 1;
      }
    }

    /** The `values_mut` loop of `add_patch`: renumber every entry at or after `orig`. */
    method ShiftEntriesFrom(orig: nat)
      modifies this
      ensures insts == old(insts)
      ensures regmap == map k | k in old(regmap) :: Shift(old(regmap)[k], orig)
    {
      ghost var m := regmap;
      var todo := regmap.Keys;
      while todo != {}
        invariant insts == old(insts)
        invariant todo <= regmap.Keys && regmap.Keys == m.Keys
        invariant forall k :: k in todo ==> regmap[k] == m[k]
        invariant forall k :: k in regmap && k !in todo ==> regmap[k] == Shift(m[k], orig)
        decreases todo
      {
        var k :| k in todo;
        regmap := regmap[k := Shift(regmap[k], orig)];
        todo := todo - {k};
      }
    }

    /** `get_into_a`. */
    method GetIntoA(name: V)
      requires name in regmap ==> regmap[name].idx <= |insts|
      modifies this
      ensures Value() == GotIntoA(old(Value()), name)
    {
      if name in regmap {
        var e := regmap[name];
        var clobbered := SetsAt(e.idx, A);
        if clobbered {
          AddPatch(e.idx, A, e.reg);
        } else {
          insts := insts + [Transfer(e.reg, A)];
          regmap := regmap[name := Residency(A, |insts| - 1)];
        }
      }
    }
  }
}
