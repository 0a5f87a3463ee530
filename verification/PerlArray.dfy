/** The sliding-window array of av.c. */
module PerlArray {
  import opened Common
  import opened PerlArraySpec
  import opened PerlArrayRoom
  import opened PerlArrayLaws

  /** The reference counts, the mortal stack and the SV allocator. */
  class Interpreter {
    var refs: seq<int>
    var tmps: seq<Cell>

    /** Before any SV is made only the immortal undef exists. */
    constructor ()
      ensures refs == [1] && tmps == []
    {
      refs, tmps := [1], [];
    }

    method NewSV() returns (sv: Sv)
      modifies this`refs
      ensures sv == |old(refs)| && refs == old(refs) + [1]
    {
      sv := |refs|;
      refs := refs + [1];
    }

    method Inc(c: Cell)
      requires Counted(c) ==> c.sv < |refs|
      modifies this`refs
      ensures refs == Bump(old(refs), c, 1)
    {
      if Counted(c) {
        refs := refs[c.sv := refs[c.sv] + 1];
      }
    }

    /** No count may be taken below zero. */
    method Dec(c: Cell)
      requires Counted(c) ==> c.sv < |refs| && refs[c.sv] > 0
      modifies this`refs
      ensures refs == Bump(old(refs), c, -1)
    {
      if Counted(c) {
        refs := refs[c.sv := refs[c.sv] - 1];
      }
    }

    /** sv_2mortal leaves the immortals alone. */
    method Mortal(sv: Sv)
      modifies this`tmps
      ensures tmps == old(tmps) + (if sv == UNDEF then [] else [Ref(sv)])
    {
      if sv != UNDEF {
        tmps := tmps + [Ref(sv)];
      }
    }
  }

  /** Move(): the two ranges may overlap. */
  method Move(a: array<Cell>, src: nat, dst: nat, n: nat)
    requires src + n <= a.Length && dst + n <= a.Length
    modifies a
    ensures forall k :: 0 <= k < a.Length ==>
              a[k] == if dst <= k < dst + n then old(a[src + k - dst]) else old(a[k])
  {
    forall k | dst <= k < dst + n {
      a[k] := a[src + k - dst];
    }
  }

  /** Renew(): what lies past the old block is not initialised. */
  method Renew(a: array<Cell>, n: nat) returns (b: array<Cell>)
    requires a.Length <= n
    ensures fresh(b) && b.Length == n && b[..a.Length] == a[..]
  {
    b := new Cell[n];
    forall k | 0 <= k < a.Length {
      b[k] := a[k];
    }
  }

  /** `while (tmp) ary[--tmp] = NULL` */
  method ClearCells(a: array<Cell>, start: nat, n: nat)
    requires start + n <= a.Length
    modifies a
    ensures forall k :: 0 <= k < a.Length ==>
              a[k] == if start <= k < start + n then Null else old(a[k])
  {
    var tmp := n;
    while tmp > 0
      invariant 0 <= tmp <= n
      invariant forall k :: 0 <= k < a.Length ==>
                  a[k] == if start + tmp <= k < start + n then Null else old(a[k])
    {
      tmp := tmp - 1;
      a[start + tmp] := Null;
    }
  }

  class Array {
    const interp: Interpreter
    /** The array is itself an SV. */
    const id: Sv

    var alloc: array?<Cell>  // AvALLOC
    var offset: nat          // AvARRAY - AvALLOC
    var max: int             // AvMAX
    var fill: int            // AvFILLp
    var isReal: bool         // AvREAL; AvREIFY is its complement here

    ghost var copied: nat
    ghost var moved: nat

    /** The window lies in the block, and every cell of the block outside it is empty once the
        array owns its elements. */
    ghost predicate Shaped()
      reads this, alloc
    {
      ShapedTo(fill)
    }

    /** The same for a window that ends at `top`. */
    ghost predicate ShapedTo(top: int)
      reads this, alloc
    {
      && -1 <= top <= max
      && (alloc == null ==> offset == 0 && max == -1)
      && (alloc != null ==>
            && 0 < alloc.Length == offset + max + 1
            && (isReal ==> forall k :: 0 <= k < alloc.Length ==> k < offset || k > offset + top ==> alloc[k] == Null))
    }

    ghost function Elems(): (e: seq<Cell>)
      reads this, alloc
      requires Shaped()
      ensures |e| == fill + 1
      ensures forall i :: 0 <= i < |e| ==> alloc != null && e[i] == alloc[offset + i]
    {
      ElemsTo(fill)
    }

    ghost function ElemsTo(top: int): (e: seq<Cell>)
      reads this, alloc
      requires ShapedTo(top)
      ensures |e| == top + 1
      ensures forall i :: 0 <= i < |e| ==> alloc != null && e[i] == alloc[offset + i]
    {
      if alloc == null then [] else alloc[offset..offset + top + 1]
    }

    ghost function Storage(): (r: Room)
      reads this, alloc
      requires Shaped()
      ensures r.Valid() && r.Max() == max
    {
      Room(if alloc == null then 0 else alloc.Length, offset, fill, copied, moved)
    }

    ghost function Window(): Layout
      reads this
    {
      Layout(offset, max)
    }

    ghost function Abs(): State
      reads this, alloc, interp
      requires Shaped()
    {
      State(Elems(), isReal, interp.refs, interp.tmps)
    }

    ghost predicate Valid()
      reads this, alloc, interp
    {
      Shaped() && Owned(Abs()) && UNDEF < id < |interp.refs|
    }

    /** newAV */
    constructor (interp: Interpreter)
      requires Owned(State([], true, interp.refs, interp.tmps))
      modifies interp`refs
      ensures this.interp == interp && id == |old(interp.refs)| && Valid() && Storage() == NO_ROOM
      ensures Abs() == NewSv(State([], true, old(interp.refs), old(interp.tmps)))
    {
      this.interp := interp;
      id := |interp.refs|;
      alloc, offset, max, fill, isReal := null, 0, -1, -1, true;
      copied, moved := 0, 0;
      new;
      NewSvConserves(State([], true, interp.refs, interp.tmps));
      var sv := interp.NewSV();
    }

    /** av_make: an array of `size` new SVs, without a block if there are none. */
    constructor Make(interp: Interpreter, size: nat)
      requires Owned(State([], true, interp.refs, interp.tmps))
      modifies interp`refs
      ensures this.interp == interp && id == |old(interp.refs)| && Valid() && max == fill == size - 1
      ensures alloc == null <==> size == 0
      ensures Abs() == State(NewCells(id + 1, size), true,
                             old(interp.refs) + Ones(size + 1), old(interp.tmps))
    {
      this.interp := interp;
      id := |interp.refs|;
      offset, isReal, copied, moved := 0, true, 0, 0;
      var ary := new Cell[size];
      alloc, max, fill := if size > 0 then ary else null, size - 1, -1;
      new;
      hide Owned, Ones;
      ghost var refs := interp.refs;
      OneMore(refs, 0);
      var sv := interp.NewSV();
      for i := 0 to size
        invariant fill == i - 1 && alloc == (if size > 0 then ary else null) && offset == 0 && max == size - 1 && isReal
        invariant forall j :: 0 <= j < i ==> ary[j] == Ref(id + 1 + j)
        invariant interp.refs == refs + Ones(i + 1)
      {
        fill := fill + 1;
        OneMore(refs, i + 1);
        var elem := interp.NewSV();
        ary[i] := Ref(elem);
      }
      assert Elems() == NewCells(id + 1, size);
      MadeIsOwned(refs, interp.tmps, size);
    }

    // ----- Storage -----

    /** av_extend_guts */
    method Extend(key: int) returns (r: Ret)
      requires Shaped()
      modifies this`alloc, this`offset, this`max, this`copied, this`moved, alloc
      ensures Shaped() && Elems() == old(Elems())
      ensures alloc == old(alloc) || fresh(alloc)
      ensures r == ExtendStep(State(old(Elems()), isReal, [], []), old(Window()), key).ret
      ensures Storage() == if r.Croak? || key < 0 then old(Storage()) else Extended(old(Storage()), key)
      ensures !r.Croak? ==> key <= max
      ensures old(offset) == 0 ==> offset == 0
    {
      hide BumpAll, Held, Outside, ElemsTo;
      if key < -1 {
        return Croak(NegativeCount);
      }
      if key > max {
        if key > I32_MAX {
          return Croak(TooManyElements);
        }
        if alloc != null && offset != 0 {
          SlideBack();
          if key > max - 10 {
            Reallocate(key + max);
          }
        } else if alloc != null {
          var newmax := max / 5;
          newmax := if key > SSIZE_MAX - newmax then SSIZE_MAX else key + newmax;
          Reallocate(newmax);
        } else {
          FirstBlock(if key < 1 then 1 else key);
        }
      }
      r := Done;
    }

    /** The window goes back to the start of the block, and the cells it leaves are emptied. */
    method SlideBack()
      requires Shaped() && alloc != null
      modifies this`offset, this`max, this`moved, alloc
      ensures Shaped() && Elems() == old(Elems())
      ensures offset == 0 && max == old(max + offset) && moved == old(moved) + fill + 1
    {
      var tmp := offset;
      ghost var e := Elems();
      MoveDown();
      moved := moved + fill + 1;
      max := max + tmp;
      offset := 0;
      if isReal {
        ClearLeft(tmp);
      }
      assert alloc[..fill + 1] == e;
    }

    method MoveDown()
      requires Shaped() && alloc != null
      modifies alloc
      ensures alloc[..fill + 1] == old(Elems())
      ensures forall k :: fill + 1 <= k < alloc.Length ==> alloc[k] == old(alloc[k])
    {
      ghost var e := Elems();
      Move(alloc, offset, 0, fill + 1);
      assert alloc[..fill + 1] == e;
    }

    /** Empties the `n` cells past the window, the last that are not. */
    method ClearLeft(n: nat)
      requires alloc != null && offset == 0 && -1 <= fill && fill + n < alloc.Length == max + 1
      requires forall k :: fill + 1 + n <= k < alloc.Length ==> alloc[k] == Null
      modifies alloc
      ensures forall k :: fill + 1 <= k < alloc.Length ==> alloc[k] == Null
      ensures alloc[..fill + 1] == old(alloc[..fill + 1])
    {
      ClearCells(alloc, fill + 1, n);
    }

    method FirstBlock(newmax: nat)
      requires Shaped() && alloc == null
      modifies this`alloc, this`max
      ensures Shaped() && alloc != null && fresh(alloc) && alloc.Length == newmax + 1
      ensures Elems() == old(Elems())
    {
      var block := new Cell[newmax + 1];
      block[0] := Null;
      if isReal {
        ClearCells(block, 1, newmax);
      }
      alloc, max := block, newmax;
    }

    /** The tail of av_extend_guts, from the label `resize` on. */
    method Reallocate(newmax: nat)
      requires Shaped() && alloc != null && offset == 0 && max <= newmax
      modifies this`alloc, this`max, this`copied
      ensures Shaped() && alloc != null && fresh(alloc) && alloc.Length == newmax + 1
      ensures Elems() == old(Elems()) && copied == old(copied) + old(alloc.Length)
    {
      ghost var e, cells := Elems(), alloc[..];
      copied := copied + alloc.Length;
      var tmp := newmax - max;
      var ary := max + 1;
      alloc := Renew(alloc, newmax + 1);
      if isReal {
        ClearCells(alloc, ary, tmp);
      }
      max := newmax;
      assert alloc[..ary] == cells;
      assert alloc[..fill + 1] == cells[..fill + 1] == e;
    }

    // ----- Operations -----

    /** av_reify: empties the cells past the window, acquires the elements, empties the headroom. */
    method Reify()
      requires Shaped() && Known(Elems(), |interp.refs|)
      modifies this`isReal, interp`refs, alloc
      ensures Shaped() && Abs() == Reified(old(Abs()))
      ensures Storage() == old(Storage())
    {
      hide BumpAll, Held, ElemsTo;
      if isReal {
        return;
      }
      BumpNone(interp.refs, 1);
      if alloc != null {
        Blank(offset + fill + 1, max - fill);
        Acquire();
        Blank(0, offset);
      }
      isReal := true;
    }

    /** Empties cells outside the window. */
    method Blank(start: nat, n: nat)
      requires Shaped() && alloc != null && start + n <= alloc.Length
      requires start + n <= offset || start > offset + fill
      modifies alloc
      ensures Shaped() && Elems() == old(Elems())
      ensures forall k :: 0 <= k < alloc.Length ==>
                alloc[k] == if start <= k < start + n then Null else old(alloc[k])
    {
      ClearCells(alloc, start, n);
    }

    method Acquire()
      requires Shaped() && Known(Elems(), |interp.refs|)
      modifies interp`refs
      ensures interp.refs == BumpAll(old(interp.refs), Elems(), 1)
    {
      hide BumpAll, Bump;
      ghost var elems := Elems();
      var key := fill + 1;
      assert elems[0..key] == elems;
      while key > 0
        invariant 0 <= key <= fill + 1
        invariant |interp.refs| == |old(interp.refs)|
        invariant BumpAll(interp.refs, elems[0..key], 1) == BumpAll(old(interp.refs), elems, 1)
      {
        key := key - 1;
        BumpAllLast(interp.refs, elems, 0, key, 1);
        interp.Inc(alloc[offset + key]);
      }
      BumpNone(interp.refs, 1);
    }

    /** av_store */
    method Store(key: int, val: Cell) returns (r: Ret)
      requires Valid() && CallerOwns(Abs(), Op.Store(key, val))
      modifies this, interp, alloc
      ensures Shaped() && Outcome(Abs(), r) == StoreStep(old(Abs()), old(Window()), key, val)
      ensures Valid() && (alloc == old(alloc) || fresh(alloc))
    {
      hide BumpAll, Held, Outside;
      StepConserves(Abs(), Window(), Op.Store(key, val));
      var k := key;
      if k < 0 {
        k := k + fill + 1;
        if k < 0 {
          return NullPointer;
        }
      }
      OwnedIsReplaceable(Abs(), k);
      r := StoreAt(k, val);
    }

    /** av_store once the index is known not to be negative. */
    method StoreAt(k: nat, val: Cell) returns (r: Ret)
      requires Shaped() && Known(Elems(), |interp.refs|) && Replaceable(Abs(), k)
      modifies this`alloc, this`offset, this`max, this`fill, this`isReal, this`copied, this`moved, interp`refs, alloc
      ensures Shaped() && (alloc == old(alloc) || fresh(alloc))
      ensures Outcome(Abs(), r) == PerlArraySpec.StoreAt(old(Abs()), old(Window()), k, val)
      ensures r.Slot? ==> Storage() == Extended(old(Storage()), k).(fill := if k > old(fill) then k else old(fill))
    {
      hide BumpAll, Held, Place, ElemsTo;
      r := MakeRoom(k);
      if r.Croak? {
        return;
      }
      assert k <= fill ==> Alive(Elems()[k]);
      Put(k, val);
      r := Slot(k);
    }

    /** The part of av_store that precedes the store itself. */
    method MakeRoom(k: nat) returns (r: Ret)
      requires Shaped() && Known(Elems(), |interp.refs|)
      modifies this`alloc, this`offset, this`max, this`isReal, this`copied, this`moved, interp`refs, alloc
      ensures Shaped() && (alloc == old(alloc) || fresh(alloc))
      ensures Abs() == Reified(old(Abs()))
      ensures r.Croak? <==> k > old(max) && k > I32_MAX
      ensures r.Croak? ==> r.why == TooManyElements
      ensures !r.Croak? ==> Storage() == Extended(old(Storage()), k)
    {
      hide BumpAll, Held, Outside;
      Reify();
      r := Done;
      if k > max {
        r := Extend(k);
      }
    }

    /** A cell whose count, if it has one, can be released. */
    ghost predicate Alive(c: Cell)
      reads interp
    {
      Counted(c) ==> c.sv < |interp.refs| && interp.refs[c.sv] > 0
    }

    /** The tail of av_store: an element past the top is stored where the cells are empty, an
        element below the top replaces one that is released. */
    method Put(k: nat, val: Cell)
      requires Shaped() && isReal && k <= max
      requires k <= fill ==> Alive(Elems()[k])
      modifies this`fill, interp`refs, alloc
      ensures Shaped() && Abs() == Replaced(old(Abs()), k, val)
      ensures Storage() == old(Storage()).(fill := if k > old(fill) then k else old(fill))
    {
      hide BumpAll, Bump, Place, Resize, ElemsTo;
      PlaceIsSet(Elems(), k, val);
      if fill < k {
        SetFill(k);
      } else {
        interp.Dec(alloc[offset + k]);
      }
      SetCell(k, val);
    }

    method SetCell(k: nat, val: Cell)
      requires Shaped() && k <= fill
      modifies alloc
      ensures Shaped() && Elems() == old(Elems())[k := val]
    {
      ghost var elems := Elems();
      alloc[offset + k] := val;
      assert Elems() == elems[k := val];
    }

    /** av_fetch */
    method Fetch(key: int, lval: bool) returns (r: Ret)
      requires Valid()
      modifies this, interp, alloc
      ensures Shaped() && Outcome(Abs(), r) == FetchStep(old(Abs()), old(Window()), key, lval)
      ensures Valid() && (alloc == old(alloc) || fresh(alloc))
    {
      hide BumpAll, Held, Outside, ElemsTo;
      StepConserves(Abs(), Window(), Op.Fetch(key, lval));
      var size := fill + 1;
      var k := if key < 0 then key + size else key;
      if k < 0 {
        return NullPointer;
      }
      if k < size && alloc[offset + k] != Null {
        return Slot(k);
      }
      if !lval {
        return NullPointer;
      }
      r := StoreNew(k);
    }

    /** Stores a new SV. */
    method StoreNew(k: nat) returns (r: Ret)
      requires Shaped() && Owned(Abs())
      modifies this`alloc, this`offset, this`max, this`fill, this`isReal, this`copied, this`moved, interp`refs, alloc
      ensures Shaped() && (alloc == old(alloc) || fresh(alloc))
      ensures Outcome(Abs(), r)
           == PerlArraySpec.StoreAt(NewSv(old(Abs())), old(Window()), k, Ref(|old(interp.refs)|))
    {
      hide BumpAll, Held, Outside;
      NewSvConserves(Abs());
      OwnedIsReplaceable(NewSv(Abs()), k);
      var sv := interp.NewSV();
      r := StoreAt(k, Ref(sv));
    }

    /** av_push */
    method Push(val: Cell) returns (r: Ret)
      requires Valid() && CallerOwns(Abs(), Op.Push(val))
      modifies this, interp, alloc
      ensures Shaped() && Outcome(Abs(), r) == PushStep(old(Abs()), old(Window()), val)
      ensures r.Done? ==> Storage() == Pushed(old(Storage()))
      ensures Valid() && (alloc == old(alloc) || fresh(alloc))
    {
      hide BumpAll, Held, Outside, ElemsTo, Replaced, Extended, Place;
      StepConserves(Abs(), Window(), Op.Push(val));
      var slot := StoreAt(fill + 1, val);
      r := if slot.Croak? then slot else Done;
    }

    /** av_pop */
    method Pop() returns (r: Ret)
      requires Valid()
      modifies this`fill, alloc
      ensures Shaped() && Outcome(Abs(), r) == PopStep(old(Abs()))
      ensures Valid()
    {
      hide BumpAll, Held, Outside;
      StepConserves(Abs(), Window(), Op.Pop);
      if fill < 0 {
        return Value(UNDEF);
      }
      var retval := alloc[offset + fill];
      alloc[offset + fill] := Null;
      fill := fill - 1;
      r := Value(Or(retval));
      assert Elems() == old(Elems())[..fill + 1];
    }

    /** av_shift */
    method Shift() returns (r: Ret)
      requires Valid()
      modifies this`fill, this`max, this`offset, alloc
      ensures Shaped() && Outcome(Abs(), r) == ShiftStep(old(Abs()))
      ensures Storage() == if old(fill) < 0 then old(Storage()) else Shifted(old(Storage()))
      ensures Valid()
    {
      hide BumpAll, Held, Outside, ElemsTo, Shifted;
      StepConserves(Abs(), Window(), Op.Shift);
      if fill < 0 {
        return Value(UNDEF);
      }
      var retval := alloc[offset];
      DropFirst();
      r := Value(Or(retval));
    }

    method DropFirst()
      requires Shaped() && fill >= 0
      modifies this`fill, this`max, this`offset, alloc
      ensures Shaped() && Elems() == old(Elems())[1..] && Storage() == Shifted(old(Storage()))
    {
      if isReal {
        alloc[offset] := Null;
      }
      offset := offset + 1;
      max := max - 1;
      fill := fill - 1;
      assert Elems() == old(Elems())[1..];
    }

    /** av_exists */
    method Exists(key: int) returns (r: Ret)
      requires Valid()
      ensures Outcome(Abs(), r) == ExistsStep(Abs(), key)
    {
      var k := if key < 0 then key + fill + 1 else key;
      if k < 0 {
        return Flag(false);
      }
      r := Flag(k <= fill && alloc[offset + k] != Null);
    }

    /** av_delete */
    method Delete(key: int, discard: bool) returns (r: Ret)
      requires Valid()
      modifies this`fill, this`isReal, interp, alloc
      ensures Shaped() && Outcome(Abs(), r) == DeleteStep(old(Abs()), key, discard)
      ensures Valid()
    {
      hide BumpAll, Held, Outside, ElemsTo, Trim, Bump;
      ghost var s := Abs();
      StepConserves(s, Window(), Op.Delete(key, discard));
      var k := if key < 0 then key + fill + 1 else key;
      if k < 0 || k > fill {
        return NullPointer;
      }
      OwnedIsReplaceable(s, k);
      r := Detach(k, discard);
    }

    /** av_delete of an element that is there. */
    method Detach(k: nat, discard: bool) returns (r: Ret)
      requires Shaped() && Known(Elems(), |interp.refs|) && k <= fill && Replaceable(Abs(), k)
      modifies this`fill, this`isReal, interp, alloc
      ensures Shaped() && Outcome(Abs(), r) == DeleteStep(old(Abs()), k, discard)
    {
      hide BumpAll, Held, Owned, Trim;
      Reify();
      var sv := alloc[offset + k];
      CutOut(k);
      if sv == Null {
        return NullPointer;
      }
      if discard {
        interp.Dec(sv);
        return NullPointer;
      }
      interp.Mortal(sv.sv);
      r := Value(sv.sv);
    }

    /** Empties a cell of the window; if it was the last one the window ends below the empty
        cells that precede it. */
    method CutOut(k: nat)
      requires Shaped() && isReal && k <= fill
      modifies this`fill, alloc
      ensures Shaped() && Elems() == Remove(old(Elems()), k)
    {
      hide BumpAll, Trim;
      alloc[offset + k] := Null;
      assert Elems() == old(Elems())[k := Null];
      if k == fill {
        DropLast();
        DropEmpty();
      }
    }

    method DropLast()
      requires Shaped() && fill >= 0 && Elems()[fill] == Null
      modifies this`fill
      ensures Shaped() && fill == old(fill) - 1 && Elems() == old(Elems())[..old(fill)]
    {
      fill := fill - 1;
      assert Elems() == old(Elems())[..old(fill)];
    }

    method DropEmpty()
      requires Shaped() && isReal
      modifies this`fill
      ensures Shaped() && Elems() == Trim(old(Elems()))
    {
      while fill >= 0 && alloc[offset + fill] == Null
        invariant Shaped() && Trim(Elems()) == Trim(old(Elems()))
        decreases fill
      {
        DropLast();
      }
    }

    /** av_unshift */
    method Unshift(num: int) returns (r: Ret)
      requires Valid()
      modifies this`alloc, this`offset, this`max, this`fill, this`isReal, this`copied, this`moved, interp`refs, alloc
      ensures Shaped() && Outcome(Abs(), r) == UnshiftStep(old(Abs()), old(Window()), num)
      ensures r.Done? && old(isReal) ==> Storage() == Unshifted(old(Storage()), num)
      ensures Valid() && (alloc == old(alloc) || fresh(alloc))
    {
      StepConserves(Abs(), Window(), Op.Unshift(num));
      assert Known(Elems(), |interp.refs|);
      hide BumpAll, Held, Outside, Owned, Elems, Extended, Known, ElemsTo;
      r := Done;
      if num <= 0 {
        return;
      }
      Reify();
      r := Prepend(num);
    }

    /** av_unshift of an owning array. */
    method Prepend(num: nat) returns (r: Ret)
      requires Shaped() && isReal && num > 0
      modifies this`alloc, this`offset, this`max, this`fill, this`copied, this`moved, alloc
      ensures Shaped() && (alloc == old(alloc) || fresh(alloc))
      ensures var o := UnshiftStep(State(old(Elems()), true, [], []), old(Window()), num);
              Elems() == o.state.elems && r == o.ret
      ensures r.Done? ==> Storage() == Unshifted(old(Storage()), num)
    {
      hide Extended, UnshiftReach, ElemsTo;
      ghost var e := Elems();
      UnshiftSplits(Storage(), num);
      var i := if offset > num then num else offset;
      UnshiftStepSplits(e, Window(), num, i);
      hide Unshifted, UnshiftStep;
      UseHeadroom(i);
      r := Done;
      if num - i > 0 {
        r := MakeHeadroom(num - i);
      }
    }

    /** The first half of av_unshift: the cells exposed below the window are empty. */
    method UseHeadroom(i: nat)
      requires Shaped() && isReal && i <= offset
      modifies this`offset, this`max, this`fill
      ensures Shaped() && Elems() == Nulls(i) + old(Elems())
      ensures Storage() == old(Storage()).(offset := old(offset) - i, fill := old(fill) + i)
    {
      max := max + i;
      fill := fill + i;
      offset := offset - i;
      assert Elems() == Nulls(i) + old(Elems());
    }

    /** The second half of av_unshift: with the headroom used up, more is made than asked for. */
    method MakeHeadroom(rest: nat) returns (r: Ret)
      requires Shaped() && isReal && offset == 0 && rest > 0
      modifies this`alloc, this`offset, this`max, this`fill, this`copied, this`moved, alloc
      ensures Shaped() && (alloc == old(alloc) || fresh(alloc))
      ensures var reach := UnshiftReach(old(Elems()), 0, rest);
              if reach > old(max) && reach > I32_MAX
              then r == Croak(TooManyElements) && Elems() == old(Elems())
              else r == Done && Elems() == Nulls(rest) + old(Elems())
                   && Storage() == Unshifted(old(Storage()), rest)
    {
      hide Extended, ElemsTo;
      var i := fill;
      var slide := if i > 0 then i else 0;
      var num := rest + slide;
      r := Extend(i + num);
      if !r.Croak? {
        OpenUp(rest, slide);
      }
    }

    /** Room is made for `rest` elements and for `slide` cells of headroom below them. */
    method OpenUp(rest: nat, slide: nat)
      requires Shaped() && isReal && offset == 0 && alloc != null && rest > 0 && fill + rest + slide <= max
      modifies this`offset, this`max, this`fill, this`moved, alloc
      ensures Shaped() && Elems() == Nulls(rest) + old(Elems())
      ensures Storage()
           == old(Storage()).(offset := slide, fill := old(fill) + rest, moved := old(moved) + old(fill) + 1)
    {
      hide Nulls, ElemsTo;
      ghost var e := Elems();
      SlideUp(rest + slide);
      SomeNulls(slide, rest, e);
      KeepHeadroom(slide);
    }

    /** Make extra elements into a buffer. */
    method KeepHeadroom(slide: nat)
      requires Shaped() && isReal && offset == 0 && slide <= fill + 1
      requires alloc != null && Elems()[..slide] == Nulls(slide)
      modifies this`offset, this`max, this`fill
      ensures Shaped() && Elems() == old(Elems())[slide..]
      ensures Storage() == old(Storage()).(offset := slide, fill := old(fill) - slide)
    {
      assert forall k :: 0 <= k < slide ==> alloc[k] == Elems()[..slide][k];
      max := max - slide;
      fill := fill - slide;
      offset := offset + slide;
      assert Elems() == old(Elems())[slide..];
    }

    /** The window grows by `num` empty cells at its start. */
    method SlideUp(num: nat)
      requires Shaped() && isReal && offset == 0 && alloc != null && fill + num <= max && num > 0
      modifies this`fill, this`moved, alloc
      ensures Shaped() && Elems() == Nulls(num) + old(Elems())
      ensures fill == old(fill) + num && moved == old(moved) + old(fill) + 1
    {
      hide BumpAll, Held, Outside;
      var i := fill;
      fill := fill + num;
      Move(alloc, 0, num, i + 1);
      moved := moved + i + 1;
      assert alloc[num..num + i + 1] == old(Elems());
      BlankStart(num);
    }

    /** Empties the first cells of the window. */
    method BlankStart(num: nat)
      requires Shaped() && offset == 0 && alloc != null && num <= fill + 1
      modifies alloc
      ensures Shaped() && Elems() == Nulls(num) + old(alloc[num..fill + 1])
    {
      ClearCells(alloc, 0, num);
      assert Elems() == Nulls(num) + old(alloc[num..fill + 1]);
    }

    /** av_fill */
    method Fill(n: int) returns (r: Ret)
      requires Valid()
      modifies this, interp, alloc
      ensures Shaped() && Outcome(Abs(), r) == FillStep(old(Abs()), old(Window()), n)
      ensures Valid() && (alloc == old(alloc) || fresh(alloc))
    {
      hide BumpAll, Held, Outside, ElemsTo;
      StepConserves(Abs(), Window(), Op.Fill(n));
      var top := if n < 0 then -1 else n;
      if top <= max {
        OwnedCovers(Abs());
        FillWithin(top);
        r := Done;
      } else {
        OwnedIsReplaceable(Abs(), top);
        var slot := StoreAt(top, Null);
        r := if slot.Croak? then slot else Done;
      }
    }

    /** The part of av_fill that stays inside the block. */
    method FillWithin(top: int)
      requires Shaped() && Known(Elems(), |interp.refs|) && -1 <= top <= max
      requires isReal ==> Covers(interp.refs, Elems())
      modifies this`fill, interp`refs, alloc
      ensures Shaped() && Abs() == FillStep(old(Abs()), old(Window()), top).state
    {
      hide BumpAll, Held, Outside, Covers, Resize;
      if isReal {
        if top < fill {
          ResizeDown(Elems(), top + 1);
          Release(top + 1);
        } else {
          SetFill(top);
        }
      } else {
        if top > fill {
          Blank(offset + fill + 1, top - fill);
        }
        SetFill(top);
      }
    }

    method SetFill(top: int)
      requires Shaped() && -1 <= top <= max && (isReal ==> top >= fill)
      requires alloc != null ==> forall k :: offset + fill < k <= offset + top ==> alloc[k] == Null
      modifies this`fill
      ensures Shaped() && Elems() == Resize(old(Elems()), top + 1)
    {
      ghost var elems := Elems();
      fill := top;
      assert Elems() == Resize(elems, top + 1);
    }

    /** Empties the top cell of the window. */
    method BlankTop(top: nat)
      requires ShapedTo(top) && alloc != null
      modifies alloc
      ensures ShapedTo(top - 1) && ElemsTo(top - 1) == old(ElemsTo(top))[..top]
    {
      alloc[offset + top] := Null;
      assert ElemsTo(top - 1) == old(ElemsTo(top))[..top];
    }

    /** av_fill below the top: the excess elements are released from the end and their cells
        emptied. */
    method Release(n: nat)
      requires Shaped() && isReal && n <= fill + 1 && Covers(interp.refs, Elems())
      modifies this`fill, interp`refs, alloc
      ensures Shaped() && Elems() == old(Elems())[..n]
      ensures interp.refs == BumpAll(old(interp.refs), old(Elems())[n..], -1)
    {
      hide BumpAll, Covers, ElemsTo, Releasing;
      ghost var elems := Elems();
      ghost var refs := interp.refs;
      var key := fill;
      ReleaseStarts(n);
      while key >= n
        invariant n - 1 <= key < |elems|
        invariant Releasing(elems, refs, n, key)
        modifies interp`refs, alloc
      {
        ReleaseTop(elems, refs, n, key);
        key := key - 1;
      }
      ReleaseEnds(elems, refs, n);
      fill := n - 1;
    }

    /** The elements past `key` are released and their cells emptied. */
    ghost predicate Releasing(elems: seq<Cell>, refs: seq<int>, n: nat, key: int)
      requires n - 1 <= key < |elems|
      reads this, alloc, interp
    {
      && ShapedTo(key) && ElemsTo(key) == elems[..key + 1] && isReal
      && Covers(interp.refs, elems[..key + 1])
      && BumpAll(interp.refs, elems[n..key + 1], -1) == BumpAll(refs, elems[n..], -1)
    }

    lemma ReleaseStarts(n: nat)
      requires Shaped() && isReal && n <= fill + 1 && Covers(interp.refs, Elems())
      ensures Releasing(Elems(), interp.refs, n, fill)
    {
      ghost var elems := Elems();
      hide BumpAll, Covers;
      assert elems[..fill + 1] == elems && elems[n..fill + 1] == elems[n..];
    }

    method ReleaseTop(ghost elems: seq<Cell>, ghost refs: seq<int>, n: nat, key: nat)
      requires n <= key < |elems| && Releasing(elems, refs, n, key)
      modifies interp`refs, alloc
      ensures Releasing(elems, refs, n, key - 1)
    {
      hide BumpAll, Covers, ElemsTo;
      PopLast(interp.refs, elems, key);
      BumpAllLast(interp.refs, elems, n, key, -1);
      interp.Dec(alloc[offset + key]);
      BlankTop(key);
    }

    lemma ReleaseEnds(elems: seq<Cell>, refs: seq<int>, n: nat)
      requires n <= |elems| && Releasing(elems, refs, n, n - 1)
      ensures ShapedTo(n - 1) && ElemsTo(n - 1) == elems[..n]
      ensures interp.refs == BumpAll(refs, elems[n..], -1)
    {
      hide BumpAll, Covers, ElemsTo;
      assert elems[n..n] == [];
      BumpNone(interp.refs, -1);
    }

    /** av_clear. A reference to the array itself is held on the mortal stack while its
        elements are released. */
    method Clear() returns (r: Ret)
      requires Valid()
      modifies this`offset, this`max, this`fill, interp, alloc
      ensures Shaped() && Outcome(Abs(), r) == EmptyStep(old(Abs()))
      // Without a cell above the headroom nothing is done: the headroom stays.
      ensures Storage() == if old(max) < 0 then old(Storage()) else old(Storage()).(offset := 0, fill := -1)
      ensures Valid()
    {
      hide BumpAll, Held, Outside, ElemsTo;
      StepConserves(Abs(), Window(), Op.Clear);
      r := Done;
      BumpNone(interp.refs, -1);
      if max < 0 {
        return;
      }
      if isReal {
        OwnedCovers(Abs());
        GuardNets(interp.refs, Elems(), id);
        Guard();
        EmptyWindow();
      }
      max := max + offset;
      offset := 0;
      fill := -1;
      if isReal {
        Unguard();
      }
    }

    /** PL_tmps_stack[++PL_tmps_ix] = SvREFCNT_inc_simple_NN(av) */
    method Guard()
      requires UNDEF < id < |interp.refs|
      modifies interp
      ensures interp.refs == Bump(old(interp.refs), Ref(id), 1)
      ensures interp.tmps == old(interp.tmps) + [Ref(id)]
    {
      interp.Inc(Ref(id));
      interp.tmps := interp.tmps + [Ref(id)];
    }

    method Unguard()
      requires UNDEF < id < |interp.refs| && interp.refs[id] > 0 && interp.tmps != []
      modifies interp
      ensures interp.refs == Bump(old(interp.refs), Ref(id), -1)
      ensures interp.tmps == old(interp.tmps)[..|old(interp.tmps)| - 1]
    {
      interp.tmps := interp.tmps[..|interp.tmps| - 1];
      interp.Dec(Ref(id));
    }

    /** The loop of av_clear: each cell is emptied before its element is released. */
    method EmptyWindow()
      requires Shaped() && isReal && alloc != null && Covers(interp.refs, Elems())
      modifies interp`refs, alloc
      ensures ShapedTo(-1)
      ensures interp.refs == BumpAll(old(interp.refs), old(Elems()), -1)
    {
      hide BumpAll, Covers, ElemsTo;
      ghost var elems := Elems();
      var index := fill + 1;
      assert elems[..index] == elems == elems[0..];
      while index > 0
        invariant 0 <= index <= |elems|
        invariant ShapedTo(index - 1) && ElemsTo(index - 1) == elems[..index]
        invariant Covers(interp.refs, elems[..index])
        invariant BumpAll(interp.refs, elems[0..index], -1) == BumpAll(old(interp.refs), elems, -1)
      {
        index := index - 1;
        PopLast(interp.refs, elems, index);
        BumpAllLast(interp.refs, elems, 0, index, -1);
        var sv := alloc[offset + index];
        BlankTop(index);
        interp.Dec(sv);
      }
      BumpNone(interp.refs, -1);
    }

    /** av_undef */
    method Undef() returns (r: Ret)
      requires Valid()
      modifies this`alloc, this`offset, this`max, this`fill, interp
      ensures Shaped() && Outcome(Abs(), r) == EmptyStep(old(Abs()))
      ensures Valid() && alloc == null
    {
      hide BumpAll, Held, Outside, ElemsTo;
      ghost var s := Abs();
      StepConserves(s, Window(), Op.Undef);
      if isReal {
        OwnedCovers(s);
        GuardNets(s.refs, s.elems, id);
        Guard();
        DropWindow();
      }
      alloc := null;
      offset := 0;
      max, fill := -1, -1;
      if isReal {
        Unguard();
      }
      r := Done;
    }

    /** The loop of av_undef. */
    method DropWindow()
      requires Shaped() && Covers(interp.refs, Elems())
      modifies interp`refs
      ensures interp.refs == BumpAll(old(interp.refs), Elems(), -1)
    {
      hide BumpAll, Covers, Bump, Held;
      ghost var elems := Elems();
      var key := fill + 1;
      assert elems[..key] == elems == elems[0..];
      while key > 0
        invariant 0 <= key <= fill + 1
        invariant Covers(interp.refs, elems[..key])
        invariant BumpAll(interp.refs, elems[0..key], -1) == BumpAll(old(interp.refs), elems, -1)
      {
        key := key - 1;
        PopLast(interp.refs, elems, key);
        BumpAllLast(interp.refs, elems, 0, key, -1);
        interp.Dec(alloc[offset + key]);
      }
      BumpNone(interp.refs, -1);
    }

    // ----- Any operation -----

    method Exec(op: Op) returns (r: Ret)
      requires Valid() && CallerOwns(Abs(), op)
      modifies this, interp, alloc
      ensures Shaped() && Outcome(Abs(), r) == Step(old(Abs()), old(Window()), op)
      ensures Valid() && (alloc == null || alloc == old(alloc) || fresh(alloc))
    {
      hide BumpAll, Held, Outside, ElemsTo;
      match op
      case Store(key, val) => r := Store(key, val);
      case Fetch(key, lval) => r := Fetch(key, lval);
      case Push(val) => r := Push(val);
      case Pop => r := Pop();
      case Shift => r := Shift();
      case Unshift(num) => r := Unshift(num);
      case Extend(key) => r := Extend(key);
      case Fill(n) => r := Fill(n);
      case Delete(key, discard) => r := Delete(key, discard);
      case Exists(key) => r := Exists(key);
      case Clear => r := Clear();
      case Undef => r := Undef();
    }
  }

  lemma SomeNulls(n: nat, rest: nat, e: seq<Cell>)
    ensures (Nulls(rest + n) + e)[n..] == Nulls(rest) + e
    ensures (Nulls(rest + n) + e)[..n] == Nulls(n)
  {
  }

  lemma OneMore(refs: seq<int>, n: nat)
    ensures Ones(0) == []
    ensures refs + Ones(n + 1) == refs + Ones(n) + [1]
  {
  }

  lemma PlaceIsSet(e: seq<Cell>, k: nat, val: Cell)
    ensures Place(e, k, val) == (if k < |e| then e else Resize(e, k + 1))[k := val]
  {
  }

  lemma ResizeDown(e: seq<Cell>, n: nat)
    requires n <= |e|
    ensures Resize(e, n) == e[..n]
  {
  }

  /** One step of releasing a covered run from its end. */
  lemma PopLast(refs: seq<int>, elems: seq<Cell>, key: nat)
    requires key < |elems| && Covers(refs, elems[..key + 1])
    ensures Counted(elems[key]) ==> elems[key].sv < |refs| && refs[elems[key].sv] > 0
    ensures Covers(Bump(refs, elems[key], -1), elems[..key])
  {
    var run := elems[..key + 1];
    CoversLast(refs, run);
    assert run[..key] == elems[..key];
  }

  lemma BumpNone(refs: seq<int>, d: int)
    ensures BumpAll(refs, [], d) == refs
  {
  }

  lemma BumpAllLast(refs: seq<int>, elems: seq<Cell>, n: nat, key: nat, d: int)
    requires n <= key < |elems|
    ensures BumpAll(refs, elems[n..key + 1], d) == BumpAll(Bump(refs, elems[key], d), elems[n..key], d)
  {
    assert elems[n..key + 1][..key - n] == elems[n..key];
  }

  lemma {:induction false} BumpsCommute(refs: seq<int>, c: Cell, cells: seq<Cell>)
    ensures BumpAll(Bump(refs, c, 1), cells, -1) == Bump(BumpAll(refs, cells, -1), c, 1)
    decreases |cells|
  {
    if cells != [] {
      var n := |cells| - 1;
      BumpsCommute(Bump(refs, cells[n], -1), c, cells[..n]);
      assert Bump(Bump(refs, c, 1), cells[n], -1) == Bump(Bump(refs, cells[n], -1), c, 1);
    }
  }

  /** The reference the array holds to itself while it lets its elements go nets to zero, and
      keeps its own count above zero all the while. */
  lemma GuardNets(refs: seq<int>, cells: seq<Cell>, id: Sv)
    requires UNDEF < id < |refs| && Covers(refs, cells)
    ensures var held := Bump(refs, Ref(id), 1);
            var after := BumpAll(held, cells, -1);
            && Covers(held, cells) && after[id] > 0
            && Bump(after, Ref(id), -1) == BumpAll(refs, cells, -1)
  {
    BumpsCommute(refs, Ref(id), cells);
    BumpAllHeld(Bump(refs, Ref(id), 1), cells, -1, id);
  }
}
