/**
 * The form's rules for automated play: whether the engine is asked to move and for how long,
 * whether automation is off altogether, and how a progress bar advances on each timer tick.
 */
module Automation {
  import opened Wrappers
  import opened Chess

  function Other(c: Color): Color
  {
    if c == White then Black else White
  }

  /** Whether the engine is asked to move now, and if so the think time in seconds.
      whiteChecked and blackChecked are the two "engine plays" check boxes and thinkWhite and
      thinkBlack the two think-time controls, named after the side they serve on an unflipped
      board; when the board is flipped the form reads each pair the other way round. */
  function EngineRequest(
    ended: bool, toMove: Color, whiteChecked: bool, blackChecked: bool, flipped: bool,
    thinkWhite: int, thinkBlack: int): (r: Option<int>)
    ensures r.Some? ==> !ended && (whiteChecked || blackChecked)
    ensures r.Some? ==> r.value == thinkWhite || r.value == thinkBlack
  {
    if ended then None
    else
      var checkWhite := if flipped then blackChecked else whiteChecked;
      var checkedBlack := if flipped then whiteChecked else blackChecked;
      if (toMove == Black && checkedBlack) || (toMove == White && checkWhite) then
        var thinkFor := if toMove == White then thinkWhite else thinkBlack;
        Some(if flipped then (if toMove == Black then thinkWhite else thinkBlack) else thinkFor)
      else None
  }

  /** The control pair that serves a side: on an unflipped board the one named after it,
      on a flipped board the one named after the other side. */
  function ServedBy(toMove: Color, flipped: bool): Color
  {
    if flipped then Other(toMove) else toMove
  }

  /** The engine is asked to move exactly when the game goes on and the check box serving the
      side to move is ticked; it then gets the think time of the control serving that side. */
  lemma EngineRequestByServingControls(
    ended: bool, toMove: Color, whiteChecked: bool, blackChecked: bool, flipped: bool,
    thinkWhite: int, thinkBlack: int)
    ensures var side := ServedBy(toMove, flipped);
      var checked := if side == White then whiteChecked else blackChecked;
      var seconds := if side == White then thinkWhite else thinkBlack;
      EngineRequest(ended, toMove, whiteChecked, blackChecked, flipped, thinkWhite, thinkBlack) ==
        if !ended && checked then Some(seconds) else None
  {
  }

  /** Flipping the board has the same effect as swapping both the check boxes and the
      think-time controls. */
  lemma FlipSwapsControls(
    ended: bool, toMove: Color, whiteChecked: bool, blackChecked: bool, thinkWhite: int, thinkBlack: int)
    ensures EngineRequest(ended, toMove, whiteChecked, blackChecked, true, thinkWhite, thinkBlack) ==
            EngineRequest(ended, toMove, blackChecked, whiteChecked, false, thinkBlack, thinkWhite)
  {
  }

  /** Neither side is played by the engine. */
  predicate ComputerIsOff(whiteChecked: bool, blackChecked: bool)
  {
    !whiteChecked && !blackChecked
  }

  /** With automation off the engine is never asked to move, whatever the board or the game. */
  lemma OffMeansNoRequest(
    ended: bool, toMove: Color, whiteChecked: bool, blackChecked: bool, flipped: bool,
    thinkWhite: int, thinkBlack: int)
    requires ComputerIsOff(whiteChecked, blackChecked)
    ensures EngineRequest(ended, toMove, whiteChecked, blackChecked, flipped, thinkWhite, thinkBlack).None?
  {
  }

  /** Conversely, if automation is on, some side to move gets a request while the game goes on. */
  lemma OnMeansSomeRequest(
    whiteChecked: bool, blackChecked: bool, flipped: bool, thinkWhite: int, thinkBlack: int)
    requires !ComputerIsOff(whiteChecked, blackChecked)
    ensures EngineRequest(false, White, whiteChecked, blackChecked, flipped, thinkWhite, thinkBlack).Some? ||
            EngineRequest(false, Black, whiteChecked, blackChecked, flipped, thinkWhite, thinkBlack).Some?
  {
  }

  // ---------------------------------------------------------------------------
  // Progress bars
  // ---------------------------------------------------------------------------

  /** A progress bar's value after one timer tick: one more, unless it is at the maximum. */
  function Ticked(value: int, maximum: int): (r: int)
    ensures r == value || r == value + 1
    ensures value <= maximum ==> r <= maximum
  {
    if value < maximum then value + 1 else value
  }

  /** A progress bar's value after k ticks. */
  function AfterTicks(value: int, maximum: int, k: nat): int
    decreases k
  {
    if k == 0 then value else AfterTicks(Ticked(value, maximum), maximum, k - 1)
  }

  /** One tick moves a bar that is within its range by at most one and never past its maximum. */
  lemma TickStaysInRange(value: int, maximum: int)
    requires 0 <= value <= maximum
    ensures value <= Ticked(value, maximum) <= maximum
    ensures Ticked(value, maximum) <= value + 1
    ensures Ticked(value, maximum) == value <==> value == maximum
  {
  }

  /** After k ticks a bar that started within its range shows the smaller of its start plus k
      and its maximum: it counts up one per tick and then stays full. */
  lemma {:induction false} TicksSaturate(value: int, maximum: int, k: nat)
    requires value <= maximum
    ensures AfterTicks(value, maximum, k) == if value + k <= maximum then value + k else maximum
    decreases k
  {
    if k > 0 {
      TicksSaturate(Ticked(value, maximum), maximum, k - 1);
    }
  }
}
