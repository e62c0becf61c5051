/**
 * The client's input state and the RFB events its SDL input produces: the
 * pointer's button mask and position, which a button press or release and a
 * motion update in place, the Control key's state, which decides how keys map
 * to keysyms, and the wheel and text-input events, which read the state but do
 * not change it. Sending an event is modelled by returning it.
 */
module Input {
  import opened Protocol
  import opened Keys

  /** An RFB client-to-server input event. */
  datatype ClientEvent =
    | KeyEvent(down: bool, keysym: U32)
    | PointerEvent(buttons: bv8, x: U16, y: U16)

  /** The SDL mouse buttons. */
  datatype MouseButton = Left | Middle | Right | X1 | X2 | Unknown

  /** The bit of the RFB button mask that stands for `b`; an unknown button has none. */
  function ButtonBit(b: MouseButton): (bit: bv8)
    ensures bit & (bit - 1) == 0
    ensures bit & 0x18 == 0
    ensures bit == 0 <==> b == Unknown
  {
    match b
    case Left => 0x01
    case Middle => 0x02
    case Right => 0x04
    case X1 => 0x20
    case X2 => 0x40
    case Unknown => 0x00
  }

  /** Different buttons own different bits. */
  lemma ButtonBitsDistinct(a: MouseButton, b: MouseButton)
    requires a != b
    ensures ButtonBit(a) & ButtonBit(b) == 0
  {
  }

  /** The button mask after the button of bit `bit` went down or up: a press sets the
      button's bit, a release clears it, and neither touches another bit; so a button without
      a bit leaves the mask as it was. */
  function Press(mask: bv8, bit: bv8, down: bool): (pressed: bv8)
    ensures pressed & bit == (if down then bit else 0)
    ensures pressed & !bit == mask & !bit
    ensures bit == 0 ==> pressed == mask
  {
    if down then mask | bit else mask & !bit
  }

  /** Pressing and releasing a button that was up gives back the mask it started from. */
  lemma PressThenRelease(mask: bv8, bit: bv8)
    requires mask & bit == 0
    ensures Press(Press(mask, bit, true), bit, false) == mask
  {
  }

  /** `x as u16` on the 32-bit coordinate of an SDL event: its low 16 bits. */
  function Truncate16(x: int): (r: U16)
    ensures 0 <= x < 0x1_0000 ==> r == x
    ensures (x - r) % 0x1_0000 == 0
  {
    x % 0x1_0000
  }

  /** The button of the RFB mask a wheel step sets: bit 3 for a step up, bit 4 for a step
      down, neither of them a bit `ButtonBit` gives. */
  function WheelBit(y: int): (bit: bv8)
    ensures bit == 0x08 <==> y == 1
    ensures bit == 0x08 || bit == 0x10
    ensures forall b :: ButtonBit(b) & bit == 0
  {
    if y == 1 then 0x08 else 0x10
  }

  /** `0x01000000 + c`: the keysym the X11 convention gives the Unicode character `c`. */
  function UnicodeKeysym(c: char): (sym: U32)
    ensures sym >= 0x0100_0000
  {
    0x0100_0000 + c as int
  }

  /** The character a Unicode keysym stands for, if it stands for one. */
  function KeysymChar(sym: U32): Option<char> {
    var code := sym - 0x0100_0000;
    if 0 <= code < 0xD800 || 0xE000 <= code < 0x11_0000 then Some(code as char) else None
  }

  /** A Unicode keysym names its character back, and no key of the keysym tables sends one. */
  lemma UnicodeKeysymInverse(c: char, alnumOk: bool, k: Keycode)
    ensures KeysymChar(UnicodeKeysym(c)) == Some(c)
    ensures MapSpecialKey(alnumOk, k) != Some(UnicodeKeysym(c))
  {
    KeysymRanges(k);
  }

  /** The events of an SDL text input: the first character of `text`, pressed and released,
      as a Unicode keysym; text without a character aborts the client. */
  function TextInput(text: string): (r: Result<seq<ClientEvent>>)
    ensures r.Err? <==> text == []
    ensures r.Ok? ==> |r.value| == 2 && r.value[0].KeyEvent? && r.value[0].down &&
                      r.value[1] == KeyEvent(false, r.value[0].keysym) &&
                      KeysymChar(r.value[0].keysym) == Some(text[0])
  {
    if text == [] then Err(Panic(UnwrapNone))
    else
      UnicodeKeysymInverse(text[0], false, Other);
      var sym := UnicodeKeysym(text[0]);
      Ok([KeyEvent(true, sym), KeyEvent(false, sym)])
  }

  /** The input state of the client's event loop. `qemuHacks` is the command-line switch
      that makes the client leave plain pointer motion to the next button event. */
  class InputState {
    const qemuHacks: bool
    var mouseButtons: bv8
    var mouseX: U16
    var mouseY: U16
    var keyCtrl: bool

    constructor (qemuHacks: bool)
      ensures this.qemuHacks == qemuHacks
      ensures mouseButtons == 0 && mouseX == 0 && mouseY == 0 && !keyCtrl
    {
      this.qemuHacks := qemuHacks;
      mouseButtons := 0;
      mouseX := 0;
      mouseY := 0;
      keyCtrl := false;
    }

    /** A key going down or up: a Control key records its state first, then the key is
        sent with the keysym `MapSpecialKey` gives it, printable keys only with Control. */
    method Key(down: bool, k: Keycode) returns (events: seq<ClientEvent>)
      modifies this
      ensures keyCtrl == (if k == LCtrl || k == RCtrl then down else old(keyCtrl))
      ensures mouseButtons == old(mouseButtons) && mouseX == old(mouseX) && mouseY == old(mouseY)
      ensures MapSpecialKey(keyCtrl, k).None? ==> events == []
      ensures MapSpecialKey(keyCtrl, k).Some? ==> events == [KeyEvent(down, MapSpecialKey(keyCtrl, k).value)]
    {
      if k == LCtrl || k == RCtrl {
        keyCtrl := down;
      }
      var keysym := MapSpecialKey(keyCtrl, k);
      events := [];
      if keysym.Some? {
        events := [KeyEvent(down, keysym.value)];
      }
    }

    /** Pointer motion: the position is recorded and, unless `qemuHacks`, sent with the
        buttons held. */
    method Motion(x: int, y: int) returns (events: seq<ClientEvent>)
      modifies this
      ensures mouseX == Truncate16(x) && mouseY == Truncate16(y)
      ensures mouseButtons == old(mouseButtons) && keyCtrl == old(keyCtrl)
      ensures events == if qemuHacks then [] else [PointerEvent(mouseButtons, mouseX, mouseY)]
    {
      mouseX := Truncate16(x);
      mouseY := Truncate16(y);
      events := [];
      if !qemuHacks {
        events := [PointerEvent(mouseButtons, mouseX, mouseY)];
      }
    }

    /** A mouse button going down or up at `(x, y)`: the position is recorded, the button's
        bit set or cleared in the mask, and the new mask sent. */
    method Button(down: bool, x: int, y: int, b: MouseButton) returns (events: seq<ClientEvent>)
      modifies this
      ensures mouseX == Truncate16(x) && mouseY == Truncate16(y) && keyCtrl == old(keyCtrl)
      ensures mouseButtons & ButtonBit(b) == (if down then ButtonBit(b) else 0)
      ensures mouseButtons & !ButtonBit(b) == old(mouseButtons) & !ButtonBit(b)
      ensures events == [PointerEvent(mouseButtons, mouseX, mouseY)]
    {
      mouseX := Truncate16(x);
      mouseY := Truncate16(y);
      var bit := ButtonBit(b);
      mouseButtons := Press(mouseButtons, bit, down);
      events := [PointerEvent(mouseButtons, mouseX, mouseY)];
    }

    /** A wheel step: one step up or down is sent as a press of button 4 or 5 followed by
        its release, at the recorded position and with the buttons held; any other amount
        sends nothing, and the state is not changed. */
    method Wheel(y: int) returns (events: seq<ClientEvent>)
      ensures |events| == (if y == 1 || y == -1 then 2 else 0)
      ensures |events| == 2 ==>
        && events[0] == PointerEvent(Press(mouseButtons, WheelBit(y), true), mouseX, mouseY)
        && events[1] == PointerEvent(mouseButtons, mouseX, mouseY)
    {
      events := [];
      if y == 1 {
        events := [PointerEvent(mouseButtons | 0x08, mouseX, mouseY), PointerEvent(mouseButtons, mouseX, mouseY)];
      } else if y == -1 {
        events := [PointerEvent(mouseButtons | 0x10, mouseX, mouseY), PointerEvent(mouseButtons, mouseX, mouseY)];
      }
    }
  }

  /** The wheel's press sets exactly the wheel's bit over the held buttons, which no mouse
      button owns, and its release restores the held mask. */
  lemma WheelIsClick(mask: bv8, y: int, b: MouseButton)
    requires y == 1 || y == -1
    ensures Press(mask, WheelBit(y), true) & WheelBit(y) == WheelBit(y)
    ensures Press(mask, WheelBit(y), true) & !WheelBit(y) == mask & !WheelBit(y)
    ensures ButtonBit(b) & WheelBit(y) == 0
    ensures mask & WheelBit(y) == 0 ==> Press(Press(mask, WheelBit(y), true), WheelBit(y), false) == mask
  {
  }
}
