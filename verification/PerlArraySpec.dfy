/** What the operations of av.c mean: a Perl array seen as a plain sequence of optional
    elements, together with the reference counts its elements are accountable for.

    The only thing the storage behind an array may decide is whether an operation croaks
    and whether a growing fill has to reify; both depend on the `Layout` before the call. */
module PerlArraySpec {

  /** An SV is an opaque id, an index into the table of reference counts. `UNDEF` is the
      immortal undef, whose count is not kept. */
  type Sv = nat

  const UNDEF: Sv := 0
  const I32_MAX: int := 0x7fff_ffff

  /** One SV* slot. */
  datatype Cell = Null | Ref(sv: Sv)

  /** `elems` is the live window, `refs[sv]` is SvREFCNT(sv), `tmps` is the mortal stack. An
      array that is not real (AvREAL off) has AvREIFY on: it does not own its elements yet. */
  datatype State = State(elems: seq<Cell>, isReal: bool, refs: seq<int>, tmps: seq<Cell>)

  /** Cells of headroom below the window, and AvMAX. */
  datatype Layout = Layout(offset: nat, max: int)

  datatype Fault = NegativeCount | TooManyElements

  datatype Ret =
    | Done
    | NullPointer
    | Slot(key: nat)
    | Value(sv: Sv)
    | Flag(isSet: bool)
    | Croak(why: Fault)

  datatype Op =
    | Store(key: int, val: Cell)
    | Fetch(key: int, lval: bool)
    | Push(val: Cell)
    | Pop
    | Shift
    | Unshift(num: int)
    | Extend(key: int)
    | Fill(fill: int)
    | Delete(key: int, discard: bool)
    | Exists(key: int)
    | Clear
    | Undef

  datatype Outcome = Outcome(state: State, ret: Ret)

  // ----- References -----

  /** A cell that carries a counted reference. */
  predicate Counted(c: Cell) {
    c.Ref? && c.sv != UNDEF
  }

  /** SvREFCNT_inc and SvREFCNT_dec of a cell; NULL and the immortal undef have no count. */
  function Bump(refs: seq<int>, c: Cell, d: int): (r: seq<int>)
    ensures |r| == |refs|
  {
    if Counted(c) && c.sv < |refs| then refs[c.sv := refs[c.sv] + d] else refs
  }

  /** `Bump` for every cell of a run, from its end. */
  function BumpAll(refs: seq<int>, cells: seq<Cell>, d: int): (r: seq<int>)
    ensures |r| == |refs|
    decreases |cells|
  {
    if cells == [] then refs
    else BumpAll(Bump(refs, cells[|cells| - 1], d), cells[..|cells| - 1], d)
  }

  /** How many cells of a run hold `sv`. */
  function Held(cells: seq<Cell>, sv: Sv): nat {
    if cells == [] then 0
    else Held(cells[..|cells| - 1], sv) + (if cells[|cells| - 1] == Ref(sv) then 1 else 0)
  }

  /** The references to `sv` that neither the array nor the mortal stack holds. */
  function Outside(s: State, sv: Sv): int
    requires sv < |s.refs|
  {
    s.refs[sv] - (if s.isReal then Held(s.elems, sv) else 0) - Held(s.tmps, sv)
  }

  predicate Known(cells: seq<Cell>, n: nat) {
    forall i :: 0 <= i < |cells| && cells[i].Ref? ==> cells[i].sv < n
  }

  /** Only SVs that newSV has made are in use, and every count covers the references the array
      and the mortal stack hold. */
  ghost predicate Owned(s: State) {
    && 0 < |s.refs| && Known(s.elems, |s.refs|) && Known(s.tmps, |s.refs|)
    && forall sv: nat :: UNDEF < sv < |s.refs| ==> Outside(s, sv) >= 0
  }

  // ----- Sequences -----

  function Nulls(n: nat): (r: seq<Cell>)
    ensures |r| == n && forall i :: 0 <= i < n ==> r[i] == Null
  {
    seq(n, _ => Null)
  }

  /** Cells for `n` SVs with consecutive ids. */
  function NewCells(first: Sv, n: nat): (r: seq<Cell>)
    ensures |r| == n && forall i :: 0 <= i < n ==> r[i] == Ref(first + i)
  {
    seq(n, (i: nat) => Ref(first + i))
  }

  /** The counts of `n` SVs just made. */
  function Ones(n: nat): (r: seq<int>)
    ensures |r| == n && forall i :: 0 <= i < n ==> r[i] == 1
  {
    seq<int>(n, _ => 1)
  }

  /** A negative index counts from the end. */
  function Index(e: seq<Cell>, key: int): int {
    if key < 0 then key + |e| else key
  }

  function Place(e: seq<Cell>, k: nat, v: Cell): (r: seq<Cell>)
    ensures |r| == (if k < |e| then |e| else k + 1) && r[k] == v
  {
    if k < |e| then e[k := v] else e + Nulls(k - |e|) + [v]
  }

  function Resize(e: seq<Cell>, n: nat): (r: seq<Cell>)
    ensures |r| == n
  {
    if n <= |e| then e[..n] else e + Nulls(n - |e|)
  }

  /** Without the empty cells at its end. */
  function Trim(e: seq<Cell>): seq<Cell> {
    if e != [] && e[|e| - 1] == Null then Trim(e[..|e| - 1]) else e
  }

  function Remove(e: seq<Cell>, k: nat): seq<Cell>
    requires k < |e|
  {
    if k == |e| - 1 then Trim(e[..k]) else e[k := Null]
  }

  function Or(c: Cell): Sv {
    if c.Null? then UNDEF else c.sv
  }

  // ----- Steps -----

  /** av_reify: the array acquires a reference to every element. */
  function Reified(s: State): State {
    if s.isReal then s else s.(isReal := true, refs := BumpAll(s.refs, s.elems, 1))
  }

  function NewSv(s: State): State {
    s.(refs := s.refs + [1])
  }

  /** An owning array takes `val` over at `k` and releases what was there. */
  function Replaced(s: State, k: nat, val: Cell): State {
    s.(elems := Place(s.elems, k, val),
       refs := if k < |s.elems| then Bump(s.refs, s.elems[k], -1) else s.refs)
  }

  function StoreAt(s: State, l: Layout, k: nat, val: Cell): Outcome {
    var s1 := Reified(s);
    if k > l.max && k > I32_MAX then Outcome(s1, Croak(TooManyElements)) else
    Outcome(Replaced(s1, k, val), Slot(k))
  }

  function StoreStep(s: State, l: Layout, key: int, val: Cell): Outcome {
    var k := Index(s.elems, key);
    if k < 0 then Outcome(s, NullPointer) else StoreAt(s, l, k, val)
  }

  function FetchStep(s: State, l: Layout, key: int, lval: bool): Outcome {
    var k := Index(s.elems, key);
    if 0 <= k < |s.elems| && s.elems[k] != Null then Outcome(s, Slot(k))
    else if k < 0 || !lval then Outcome(s, NullPointer)
    else StoreAt(NewSv(s), l, k, Ref(|s.refs|))
  }

  function PushStep(s: State, l: Layout, val: Cell): Outcome {
    var o := StoreAt(s, l, |s.elems|, val);
    Outcome(o.state, if o.ret.Croak? then o.ret else Done)
  }

  function PopStep(s: State): Outcome {
    if s.elems == [] then Outcome(s, Value(UNDEF)) else
    var n := |s.elems| - 1;
    Outcome(s.(elems := s.elems[..n]), Value(Or(s.elems[n])))
  }

  function ShiftStep(s: State): Outcome {
    if s.elems == [] then Outcome(s, Value(UNDEF)) else
    Outcome(s.(elems := s.elems[1..]), Value(Or(s.elems[0])))
  }

  /** The top index the storage must have room for once the headroom is used up: one more
      than the elements asked for, and as much again as headroom for later. */
  function UnshiftReach(e: seq<Cell>, headroom: nat, num: int): int
    requires headroom <= num
  {
    var top := |e| + headroom - 1;
    top + (num - headroom) + (if top > 0 then top else 0)
  }

  function UnshiftStep(s: State, l: Layout, num: int): Outcome {
    if num <= 0 then Outcome(s, Done) else
    var s1 := Reified(s);
    var i := if l.offset > num then num else l.offset;
    var reach := UnshiftReach(s.elems, i, num);
    if i < num && reach > l.max + i && reach > I32_MAX
    then Outcome(s1.(elems := Nulls(i) + s.elems), Croak(TooManyElements))
    else Outcome(s1.(elems := Nulls(num) + s.elems), Done)
  }

  function ExtendStep(s: State, l: Layout, key: int): Outcome {
    Outcome(s, if key < -1 then Croak(NegativeCount)
               else if key > l.max && key > I32_MAX then Croak(TooManyElements)
               else Done)
  }

  function FillStep(s: State, l: Layout, fill: int): Outcome {
    var n := if fill < 0 then 0 else fill + 1;
    if n > 0 && n - 1 > l.max then
      var o := StoreAt(s, l, n - 1, Null);
      Outcome(o.state, if o.ret.Croak? then o.ret else Done)
    else
      var refs := if s.isReal && n < |s.elems| then BumpAll(s.refs, s.elems[n..], -1) else s.refs;
      Outcome(s.(elems := Resize(s.elems, n), refs := refs), Done)
  }

  function DeleteStep(s: State, key: int, discard: bool): Outcome {
    var k := Index(s.elems, key);
    if k < 0 || k >= |s.elems| then Outcome(s, NullPointer) else
    var s1 := Reified(s).(elems := Remove(s.elems, k));
    match s.elems[k]
    case Null => Outcome(s1, NullPointer)
    case Ref(sv) =>
      if discard then Outcome(s1.(refs := Bump(s1.refs, s.elems[k], -1)), NullPointer)
      else Outcome(s1.(tmps := s1.tmps + (if sv == UNDEF then [] else [Ref(sv)])), Value(sv))
  }

  function ExistsStep(s: State, key: int): Outcome {
    var k := Index(s.elems, key);
    Outcome(s, Flag(0 <= k < |s.elems| && s.elems[k] != Null))
  }

  /** Both av_clear and av_undef. */
  function EmptyStep(s: State): Outcome {
    Outcome(s.(elems := [], refs := if s.isReal then BumpAll(s.refs, s.elems, -1) else s.refs), Done)
  }

  function Step(s: State, l: Layout, op: Op): Outcome {
    match op
    case Store(key, val) => StoreStep(s, l, key, val)
    case Fetch(key, lval) => FetchStep(s, l, key, lval)
    case Push(val) => PushStep(s, l, val)
    case Pop => PopStep(s)
    case Shift => ShiftStep(s)
    case Unshift(num) => UnshiftStep(s, l, num)
    case Extend(key) => ExtendStep(s, l, key)
    case Fill(fill) => FillStep(s, l, fill)
    case Delete(key, discard) => DeleteStep(s, key, discard)
    case Exists(key) => ExistsStep(s, key)
    case Clear => EmptyStep(s)
    case Undef => EmptyStep(s)
  }
}
