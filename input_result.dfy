/**
 * `InputResult` (game_handler.h): one input event, a timeout, a mouse click at a
 * field position or a key press. The three constructors initialise only the
 * members their kind needs; the members they leave uninitialised are taken here
 * as parameters (`unsetX`, ...), so the contracts show which getters read them.
 */
module Input {

  datatype InputResult = InputResult(posX: nat, posY: nat, keyboard: bool, timedout: bool, key: int)
  {
    function IsTimedOut(): (r: bool)
      ensures r ==> !IsKeyboard()
    { timedout }

    /** A key event that did not time out; a timeout is never a key event,
        whatever its unset `keyboard` member holds. */
    function IsKeyboard(): (r: bool)
      ensures r ==> !timedout
    { keyboard && !timedout }

    /** The key code of a key event, 0 otherwise. */
    function GetKey(): (r: int)
      ensures r != 0 ==> IsKeyboard() && r == key
    { if IsKeyboard() then key else 0 }

    /** The click position of a non-key event, 0 for a key event. */
    function GetPosX(): (r: nat)
      ensures r != 0 ==> !IsKeyboard() && r == posX
    { if IsKeyboard() then 0 else posX }

    function GetPosY(): (r: nat)
      ensures r != 0 ==> !IsKeyboard() && r == posY
    { if IsKeyboard() then 0 else posY }
  }

  /** `InputResult()`: the timeout event. It is timed out and not a key event.
      Its position getters return the position members, which this constructor
      leaves unset. */
  function Timeout(unsetX: nat, unsetY: nat, unsetKeyboard: bool, unsetKey: int): (r: InputResult)
    ensures r.IsTimedOut() && !r.IsKeyboard() && r.GetKey() == 0
    ensures r.GetPosX() == unsetX && r.GetPosY() == unsetY
  {
    InputResult(unsetX, unsetY, unsetKeyboard, true, unsetKey)
  }

  /** `InputResult(posX, posY)`: a click. Neither timed out nor a key event; the
      getters give the position and key 0, whatever the unset key member holds. */
  function Mouse(x: nat, y: nat, unsetKey: int): (r: InputResult)
    ensures !r.IsTimedOut() && !r.IsKeyboard()
    ensures r.GetPosX() == x && r.GetPosY() == y && r.GetKey() == 0
  {
    InputResult(x, y, false, false, unsetKey)
  }

  /** `InputResult(key)`: a key press. A key event with that key, at position
      (0, 0) whatever the unset position members hold. */
  function Key(k: int, unsetX: nat, unsetY: nat): (r: InputResult)
    ensures !r.IsTimedOut() && r.IsKeyboard()
    ensures r.GetKey() == k && r.GetPosX() == 0 && r.GetPosY() == 0
  {
    InputResult(unsetX, unsetY, true, false, k)
  }

  /** What a caller can observe of an event through its getters. */
  function Observed(r: InputResult): (o: (bool, bool, int, nat, nat))
  {
    (r.IsTimedOut(), r.IsKeyboard(), r.GetKey(), r.GetPosX(), r.GetPosY())
  }

  /** A click and a key press are determined by their constructor arguments: the
      members their constructors leave unset cannot be observed. The three kinds
      are told apart by `IsTimedOut` and `IsKeyboard`. */
  lemma ConstructedEventsAreDetermined(x: nat, y: nat, k: int, a: int, b: int, p: nat, q: nat, p2: nat, q2: nat)
    ensures Observed(Mouse(x, y, a)) == Observed(Mouse(x, y, b))
    ensures Observed(Key(k, p, q)) == Observed(Key(k, p2, q2))
    ensures Mouse(x, y, a).IsKeyboard() != Key(k, p, q).IsKeyboard()
    ensures Timeout(p, q, true, a).IsTimedOut() && !Key(k, p, q).IsTimedOut()
  {
  }
}
