/** How much storage an array has, how the operations of av.c change it, and how many cells
    that copies or slides. */
module PerlArrayRoom {
  import opened Common
  import opened PerlArraySpec

  /** `cells` is the size of the allocated block (0 for none), `offset` the headroom below the
      window and `fill` AvFILLp. `copied` counts cells copied by reallocations, `moved` cells
      moved by block moves, over the life of the array. */
  datatype Room = Room(cells: nat, offset: nat, fill: int, copied: nat, moved: nat) {
    /** AvMAX. */
    function Max(): int { cells - offset - 1 }

    predicate Valid() {
      -1 <= fill <= Max() && (cells == 0 ==> offset == 0)
    }
  }

  const NO_ROOM := Room(0, 0, -1, 0, 0)

  /** The next top index when a block with top index `max` must reach `key`. */
  function GrownMax(max: nat, key: nat): nat {
    if key > SSIZE_MAX - max / 5 then SSIZE_MAX else key + max / 5
  }

  /** av_extend_guts for a key it accepts. */
  function Extended(r: Room, key: nat): Room
    requires r.Valid()
  {
    if key <= r.Max() then r
    else if r.offset > 0 then
      var top := r.cells - 1;
      var slid := r.(offset := 0, moved := r.moved + r.fill + 1);
      if key > top - 10 then slid.(cells := key + top + 1, copied := r.copied + r.cells) else slid
    else if r.cells > 0 then
      r.(cells := GrownMax(r.cells - 1, key) + 1, copied := r.copied + r.cells)
    else r.(cells := (if key < 1 then 1 else key) + 1)
  }

  /** One av_push. */
  function Pushed(r: Room): Room
    requires r.Valid()
  {
    Extended(r, r.fill + 1).(fill := r.fill + 1)
  }

  /** One av_shift of an array that has an element. */
  function Shifted(r: Room): Room
    requires r.Valid() && r.fill >= 0
  {
    r.(offset := r.offset + 1, fill := r.fill - 1)
  }

  /** av_unshift of `num` empty elements. */
  function Unshifted(r: Room, num: int): Room
    requires r.Valid()
  {
    if num <= 0 then r else
    var i := if r.offset > num then num else r.offset;
    var r1 := r.(offset := r.offset - i, fill := r.fill + i);
    if i == num then r1 else
    var top := r1.fill;
    var slide := if top > 0 then top else 0;
    var r2 := Extended(r1, top + num - i + slide);
    r2.(offset := slide, fill := top + num - i, moved := r2.moved + top + 1)
  }

  /** Which block an extension leaves: the old one if the key is within it, or within ten cells of its
      end once the window is back at its start; else one for the key and as many cells again as the old
      one had, or for the key and a fifth of them if there was no headroom; and never less than two. */
  lemma BlockFor(r: Room, key: nat)
    requires r.Valid()
    ensures var t, within := Extended(r, key), key + r.offset < r.cells;
            var stays := within || (r.offset > 0 && key + 10 < r.cells);
            && t.fill == r.fill && t.offset == (if within then r.offset else 0)
            && t.moved == r.moved + (if within || r.offset == 0 then 0 else r.fill + 1)
            && t.copied == r.copied + (if stays then 0 else r.cells)
            && t.cells == if stays then r.cells
                          else if r.offset > 0 then key + r.cells
                          else if r.cells > 0 then
                            var top := key + (r.cells - 1) / 5;
                            if top > SSIZE_MAX then SSIZE_MAX + 1 else top + 1
                          else if key == 0 then 2 else key + 1
  {
  }

  /** Which window an unshift leaves: the headroom it takes, or new headroom for as many elements as
      there are by then, less one. */
  lemma WindowFor(r: Room, num: nat)
    requires r.Valid()
    ensures var t := Unshifted(r, num);
            && t.fill == r.fill + num
            && if num <= r.offset then t.offset == r.offset - num && t.cells == r.cells && t.moved == r.moved
               else t.offset == if r.fill + r.offset > 0 then r.fill + r.offset else 0
    ensures r.fill >= 0 ==> Shifted(r) == Room(r.cells, r.offset + 1, r.fill - 1, r.copied, r.moved)
    ensures Pushed(r).fill == r.fill + 1
  {
  }

  /** The sum that picks a new size cannot overflow SSize_t for any key av_extend_guts lets
      through: a block it allocates has at most 2 * key + 10 cells. */
  lemma GrowthFits(r: Room, key: nat)
    requires r.Valid() && key <= I32_MAX
    ensures var r1 := Extended(r, key);
            r1.Valid() && key <= r1.Max()
            && (r1.cells == r.cells || r1.cells <= 2 * key + 10)
            && 2 * key + 10 < SSIZE_MAX
  {
  }

  /** An unshift first uses up the headroom; only what is left needs new room. */
  lemma UnshiftSplits(r: Room, num: int)
    requires r.Valid() && num > 0
    ensures var i := if r.offset > num then num else r.offset;
            var used := r.(offset := r.offset - i, fill := r.fill + i);
            Unshifted(r, num) == if i == num then used else Unshifted(used, num - i)
  {
  }
}
