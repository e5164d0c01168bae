/** The input-driven cursor of `retro_run`: one axis moves by at most one
    unit per frame and is clamped into [0, hi] after each step. */
module Cursor {

  /** The four joypad buttons the core queries, as the host answers them. */
  datatype Joypad = Joypad(right: bool, left: bool, down: bool, up: bool)

  /** One axis of the cursor update: the increasing button is applied first
      and clamped to `hi`, then the decreasing one, clamped to 0. */
  function StepAxis(v: int, inc: bool, dec: bool, hi: int): (r: int)
    ensures 0 <= v <= hi ==> 0 <= r <= hi && v - 1 <= r <= v + 1
    ensures !inc && !dec ==> r == v
    ensures 0 < hi && inc && dec && v == hi ==> r == hi - 1
  {
    var a := if inc then (if v + 1 > hi then hi else v + 1) else v;
    if dec then (if a - 1 < 0 then 0 else a - 1) else a
  }

  /** The whole outcome table of one axis while the cursor is in range:
      a single button moves one unit unless at the edge; both together
      cancel, except at the upper edge, where the clamp has already eaten
      the increase. */
  lemma StepAxisTable(v: int, inc: bool, dec: bool, hi: int)
    requires 0 < hi && 0 <= v <= hi
    ensures StepAxis(v, inc, dec, hi) ==
      if inc && !dec then (if v < hi then v + 1 else hi)
      else if dec && !inc then (if v > 0 then v - 1 else 0)
      else if inc && dec then (if v < hi then v else hi - 1)
      else v
  {
  }
}
