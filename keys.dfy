/**
 * The client's translation of SDL key codes into X11 keysyms for RFB key
 * events (`map_special_key`). Two tables decide: one for the keys that type a
 * printable character, used only while Control is held (otherwise SDL's text
 * input delivers the character), and one for editing, function, keypad and
 * modifier keys. The keysym values are those of X11's `keysymdef.h`; the
 * caret key maps to `XK_caret` (0xafc), not to `XK_asciicircum` (0x5e).
 */
module Keys {
  import opened Protocol

  /** The SDL key codes the client names. */
  datatype Keycode =
    | Space | Exclaim | Quotedbl | Hash | Dollar | Percent | Ampersand | Quote
    | LeftParen | RightParen | Asterisk | Plus | Comma | Minus | Period | Slash
    | Num0 | Num1 | Num2 | Num3 | Num4 | Num5 | Num6 | Num7
    | Num8 | Num9 | Colon | Semicolon | Less | Equals | Greater | Question
    | At | LeftBracket | Backslash | RightBracket | Caret | Underscore | Backquote | A
    | B | C | D | E | F | G | H | I
    | J | K | L | M | N | O | P | Q
    | R | S | T | U | V | W | X | Y
    | Z
    | Backspace | Tab | Return | Escape | Delete | CapsLock | F1 | F2
    | F3 | F4 | F5 | F6 | F7 | F8 | F9 | F10
    | F11 | F12 | PrintScreen | ScrollLock | Pause | Insert | Home | PageUp
    | End | PageDown | Right | Left | Down | Up | NumLockClear | KpDivide
    | KpMultiply | KpMinus | KpPlus | KpEnter | Kp1 | Kp2 | Kp3 | Kp4
    | Kp5 | Kp6 | Kp7 | Kp8 | Kp9 | Kp0 | KpPeriod | F13
    | F14 | F15 | F16 | F17 | F18 | F19 | F20 | F21
    | F22 | F23 | F24 | Menu | Sysreq | LCtrl | LShift | LAlt
    | LGui | RCtrl | RShift | RAlt | RGui
    | Other  // every key neither table names

  /** The keysym of a key that types a printable character, or 0 for any other key: an ASCII
      keysym, or for the caret key the caret of the publishing set. */
  function PrintableKeysym(k: Keycode): (sym: int)
    ensures sym == 0 || 0x20 <= sym <= 0x7e || sym == 0xafc
    ensures k == Other ==> sym == 0
  {
    match k
    case Space => 0x20  // XK_space
    case Exclaim => 0x21  // XK_exclam
    case Quotedbl => 0x22  // XK_quotedbl
    case Hash => 0x23  // XK_numbersign
    case Dollar => 0x24  // XK_dollar
    case Percent => 0x25  // XK_percent
    case Ampersand => 0x26  // XK_ampersand
    case Quote => 0x27  // XK_apostrophe
    case LeftParen => 0x28  // XK_parenleft
    case RightParen => 0x29  // XK_parenright
    case Asterisk => 0x2a  // XK_asterisk
    case Plus => 0x2b  // XK_plus
    case Comma => 0x2c  // XK_comma
    case Minus => 0x2d  // XK_minus
    case Period => 0x2e  // XK_period
    case Slash => 0x2f  // XK_slash
    case Num0 => 0x30  // XK_0
    case Num1 => 0x31  // XK_1
    case Num2 => 0x32  // XK_2
    case Num3 => 0x33  // XK_3
    case Num4 => 0x34  // XK_4
    case Num5 => 0x35  // XK_5
    case Num6 => 0x36  // XK_6
    case Num7 => 0x37  // XK_7
    case Num8 => 0x38  // XK_8
    case Num9 => 0x39  // XK_9
    case Colon => 0x3a  // XK_colon
    case Semicolon => 0x3b  // XK_semicolon
    case Less => 0x3c  // XK_less
    case Equals => 0x3d  // XK_equal
    case Greater => 0x3e  // XK_greater
    case Question => 0x3f  // XK_question
    case At => 0x40  // XK_at
    case LeftBracket => 0x5b  // XK_bracketleft
    case Backslash => 0x5c  // XK_backslash
    case RightBracket => 0x5d  // XK_bracketright
    case Caret => 0xafc  // XK_caret
    case Underscore => 0x5f  // XK_underscore
    case Backquote => 0x60  // XK_grave
    case A => 0x61  // XK_a
    case B => 0x62  // XK_b
    case C => 0x63  // XK_c
    case D => 0x64  // XK_d
    case E => 0x65  // XK_e
    case F => 0x66  // XK_f
    case G => 0x67  // XK_g
    case H => 0x68  // XK_h
    case I => 0x69  // XK_i
    case J => 0x6a  // XK_j
    case K => 0x6b  // XK_k
    case L => 0x6c  // XK_l
    case M => 0x6d  // XK_m
    case N => 0x6e  // XK_n
    case O => 0x6f  // XK_o
    case P => 0x70  // XK_p
    case Q => 0x71  // XK_q
    case R => 0x72  // XK_r
    case S => 0x73  // XK_s
    case T => 0x74  // XK_t
    case U => 0x75  // XK_u
    case V => 0x76  // XK_v
    case W => 0x77  // XK_w
    case X => 0x78  // XK_x
    case Y => 0x79  // XK_y
    case Z => 0x7a  // XK_z
    case _ => 0
  }

  /** The keysym of an editing, function, keypad or modifier key, or 0 for any other key: a
      keysym of the 0xff00 page. */
  function SpecialKeysym(k: Keycode): (sym: int)
    ensures sym == 0 || 0xff00 <= sym <= 0xffff
    ensures k == Other ==> sym == 0
  {
    match k
    case Backspace => 0xff08  // XK_BackSpace
    case Tab => 0xff09  // XK_Tab
    case Return => 0xff0d  // XK_Return
    case Escape => 0xff1b  // XK_Escape
    case Delete => 0xffff  // XK_Delete
    case CapsLock => 0xffe5  // XK_Caps_Lock
    case F1 => 0xffbe  // XK_F1
    case F2 => 0xffbf  // XK_F2
    case F3 => 0xffc0  // XK_F3
    case F4 => 0xffc1  // XK_F4
    case F5 => 0xffc2  // XK_F5
    case F6 => 0xffc3  // XK_F6
    case F7 => 0xffc4  // XK_F7
    case F8 => 0xffc5  // XK_F8
    case F9 => 0xffc6  // XK_F9
    case F10 => 0xffc7  // XK_F10
    case F11 => 0xffc8  // XK_F11
    case F12 => 0xffc9  // XK_F12
    case PrintScreen => 0xff61  // XK_Print
    case ScrollLock => 0xff14  // XK_Scroll_Lock
    case Pause => 0xff13  // XK_Pause
    case Insert => 0xff63  // XK_Insert
    case Home => 0xff50  // XK_Home
    case PageUp => 0xff55  // XK_Page_Up
    case End => 0xff57  // XK_End
    case PageDown => 0xff56  // XK_Page_Down
    case Right => 0xff53  // XK_Right
    case Left => 0xff51  // XK_Left
    case Down => 0xff54  // XK_Down
    case Up => 0xff52  // XK_Up
    case NumLockClear => 0xff7f  // XK_Num_Lock
    case KpDivide => 0xffaf  // XK_KP_Divide
    case KpMultiply => 0xffaa  // XK_KP_Multiply
    case KpMinus => 0xffad  // XK_KP_Subtract
    case KpPlus => 0xffab  // XK_KP_Add
    case KpEnter => 0xff8d  // XK_KP_Enter
    case Kp1 => 0xffb1  // XK_KP_1
    case Kp2 => 0xffb2  // XK_KP_2
    case Kp3 => 0xffb3  // XK_KP_3
    case Kp4 => 0xffb4  // XK_KP_4
    case Kp5 => 0xffb5  // XK_KP_5
    case Kp6 => 0xffb6  // XK_KP_6
    case Kp7 => 0xffb7  // XK_KP_7
    case Kp8 => 0xffb8  // XK_KP_8
    case Kp9 => 0xffb9  // XK_KP_9
    case Kp0 => 0xffb0  // XK_KP_0
    case KpPeriod => 0xffac  // XK_KP_Separator
    case F13 => 0xffca  // XK_F13
    case F14 => 0xffcb  // XK_F14
    case F15 => 0xffcc  // XK_F15
    case F16 => 0xffcd  // XK_F16
    case F17 => 0xffce  // XK_F17
    case F18 => 0xffcf  // XK_F18
    case F19 => 0xffd0  // XK_F19
    case F20 => 0xffd1  // XK_F20
    case F21 => 0xffd2  // XK_F21
    case F22 => 0xffd3  // XK_F22
    case F23 => 0xffd4  // XK_F23
    case F24 => 0xffd5  // XK_F24
    case Menu => 0xff67  // XK_Menu
    case Sysreq => 0xff15  // XK_Sys_Req
    case LCtrl => 0xffe3  // XK_Control_L
    case LShift => 0xffe1  // XK_Shift_L
    case LAlt => 0xffe9  // XK_Alt_L
    case LGui => 0xffeb  // XK_Super_L
    case RCtrl => 0xffe4  // XK_Control_R
    case RShift => 0xffe2  // XK_Shift_R
    case RAlt => 0xffea  // XK_Alt_R
    case RGui => 0xffec  // XK_Super_R
    case _ => 0
  }

  /** `map_special_key`: with `alnumOk`, a key of the printable table sends its keysym;
      otherwise, and for every other key, the special table decides, and a key neither
      table names sends nothing. */
  function MapSpecialKey(alnumOk: bool, k: Keycode): (r: Option<U32>)
    ensures r != Some(0)
    ensures r.None? <==> (!alnumOk || PrintableKeysym(k) == 0) && SpecialKeysym(k) == 0
    ensures alnumOk && PrintableKeysym(k) != 0 ==> r == Some(PrintableKeysym(k))
    ensures !alnumOk || PrintableKeysym(k) == 0 ==> r.Some? ==> r.value == SpecialKeysym(k)
  {
    KeysymRanges(k);
    var printable := PrintableKeysym(k);
    if printable != 0 && alnumOk then Some(printable)
    else
      var special := SpecialKeysym(k);
      if special != 0 then Some(special) else None
  }

  /** The key of the printable table that sends `sym`, if any. */
  function PrintableKeycode(sym: int): Option<Keycode> {
    match sym
    case 0x20 => Some(Space)
    case 0x21 => Some(Exclaim)
    case 0x22 => Some(Quotedbl)
    case 0x23 => Some(Hash)
    case 0x24 => Some(Dollar)
    case 0x25 => Some(Percent)
    case 0x26 => Some(Ampersand)
    case 0x27 => Some(Quote)
    case 0x28 => Some(LeftParen)
    case 0x29 => Some(RightParen)
    case 0x2a => Some(Asterisk)
    case 0x2b => Some(Plus)
    case 0x2c => Some(Comma)
    case 0x2d => Some(Minus)
    case 0x2e => Some(Period)
    case 0x2f => Some(Slash)
    case 0x30 => Some(Num0)
    case 0x31 => Some(Num1)
    case 0x32 => Some(Num2)
    case 0x33 => Some(Num3)
    case 0x34 => Some(Num4)
    case 0x35 => Some(Num5)
    case 0x36 => Some(Num6)
    case 0x37 => Some(Num7)
    case 0x38 => Some(Num8)
    case 0x39 => Some(Num9)
    case 0x3a => Some(Colon)
    case 0x3b => Some(Semicolon)
    case 0x3c => Some(Less)
    case 0x3d => Some(Equals)
    case 0x3e => Some(Greater)
    case 0x3f => Some(Question)
    case 0x40 => Some(At)
    case 0x5b => Some(LeftBracket)
    case 0x5c => Some(Backslash)
    case 0x5d => Some(RightBracket)
    case 0x5f => Some(Underscore)
    case 0x60 => Some(Backquote)
    case 0x61 => Some(A)
    case 0x62 => Some(B)
    case 0x63 => Some(C)
    case 0x64 => Some(D)
    case 0x65 => Some(E)
    case 0x66 => Some(F)
    case 0x67 => Some(G)
    case 0x68 => Some(H)
    case 0x69 => Some(I)
    case 0x6a => Some(J)
    case 0x6b => Some(K)
    case 0x6c => Some(L)
    case 0x6d => Some(M)
    case 0x6e => Some(N)
    case 0x6f => Some(O)
    case 0x70 => Some(P)
    case 0x71 => Some(Q)
    case 0x72 => Some(R)
    case 0x73 => Some(S)
    case 0x74 => Some(T)
    case 0x75 => Some(U)
    case 0x76 => Some(V)
    case 0x77 => Some(W)
    case 0x78 => Some(X)
    case 0x79 => Some(Y)
    case 0x7a => Some(Z)
    case 0xafc => Some(Caret)
    case _ => None
  }

  /** The key of the special table that sends `sym`, if any. */
  function SpecialKeycode(sym: int): Option<Keycode> {
    match sym
    case 0xff08 => Some(Backspace)
    case 0xff09 => Some(Tab)
    case 0xff0d => Some(Return)
    case 0xff13 => Some(Pause)
    case 0xff14 => Some(ScrollLock)
    case 0xff15 => Some(Sysreq)
    case 0xff1b => Some(Escape)
    case 0xff50 => Some(Home)
    case 0xff51 => Some(Left)
    case 0xff52 => Some(Up)
    case 0xff53 => Some(Right)
    case 0xff54 => Some(Down)
    case 0xff55 => Some(PageUp)
    case 0xff56 => Some(PageDown)
    case 0xff57 => Some(End)
    case 0xff61 => Some(PrintScreen)
    case 0xff63 => Some(Insert)
    case 0xff67 => Some(Menu)
    case 0xff7f => Some(NumLockClear)
    case 0xff8d => Some(KpEnter)
    case 0xffaa => Some(KpMultiply)
    case 0xffab => Some(KpPlus)
    case 0xffac => Some(KpPeriod)
    case 0xffad => Some(KpMinus)
    case 0xffaf => Some(KpDivide)
    case 0xffb0 => Some(Kp0)
    case 0xffb1 => Some(Kp1)
    case 0xffb2 => Some(Kp2)
    case 0xffb3 => Some(Kp3)
    case 0xffb4 => Some(Kp4)
    case 0xffb5 => Some(Kp5)
    case 0xffb6 => Some(Kp6)
    case 0xffb7 => Some(Kp7)
    case 0xffb8 => Some(Kp8)
    case 0xffb9 => Some(Kp9)
    case 0xffbe => Some(F1)
    case 0xffbf => Some(F2)
    case 0xffc0 => Some(F3)
    case 0xffc1 => Some(F4)
    case 0xffc2 => Some(F5)
    case 0xffc3 => Some(F6)
    case 0xffc4 => Some(F7)
    case 0xffc5 => Some(F8)
    case 0xffc6 => Some(F9)
    case 0xffc7 => Some(F10)
    case 0xffc8 => Some(F11)
    case 0xffc9 => Some(F12)
    case 0xffca => Some(F13)
    case 0xffcb => Some(F14)
    case 0xffcc => Some(F15)
    case 0xffcd => Some(F16)
    case 0xffce => Some(F17)
    case 0xffcf => Some(F18)
    case 0xffd0 => Some(F19)
    case 0xffd1 => Some(F20)
    case 0xffd2 => Some(F21)
    case 0xffd3 => Some(F22)
    case 0xffd4 => Some(F23)
    case 0xffd5 => Some(F24)
    case 0xffe1 => Some(LShift)
    case 0xffe2 => Some(RShift)
    case 0xffe3 => Some(LCtrl)
    case 0xffe4 => Some(RCtrl)
    case 0xffe5 => Some(CapsLock)
    case 0xffe9 => Some(LAlt)
    case 0xffea => Some(RAlt)
    case 0xffeb => Some(LGui)
    case 0xffec => Some(RGui)
    case 0xffff => Some(Delete)
    case _ => None
  }

  /** The two tables name disjoint sets of keys: a printable key is never sent without
      Control, and a special key is sent whether or not Control is held. */
  lemma TablesDisjoint(k: Keycode)
    ensures PrintableKeysym(k) == 0 || SpecialKeysym(k) == 0
    ensures PrintableKeysym(k) != 0 ==> MapSpecialKey(false, k) == None
    ensures SpecialKeysym(k) != 0 ==> MapSpecialKey(false, k) == MapSpecialKey(true, k) == Some(SpecialKeysym(k))
  {
  }

  /** The printable keys send ASCII keysyms, save the caret key, which sends the caret of the
      publishing set; the special keys send keysyms of the 0xff00 page. So every keysym fits
      32 bits, and the keysym of an event tells which table sent it. */
  lemma KeysymRanges(k: Keycode)
    ensures k != Caret ==> PrintableKeysym(k) == 0 || 0x20 <= PrintableKeysym(k) <= 0x7e
    ensures PrintableKeysym(Caret) == 0xafc
    ensures SpecialKeysym(k) == 0 || 0xff00 <= SpecialKeysym(k) <= 0xffff
  {
  }

  /** The keys Space to Ampersand of the printable table are named back by the keysym they send. */
  lemma SpaceToAmpersandInvertible(k: Keycode)
    requires k in {Space, Exclaim, Quotedbl, Hash, Dollar, Percent, Ampersand}
    ensures PrintableKeycode(PrintableKeysym(k)) == Some(k)
  {
  }

  /** The keys Quote to Minus of the printable table are named back by the keysym they send. */
  lemma QuoteToMinusInvertible(k: Keycode)
    requires k in {Quote, LeftParen, RightParen, Asterisk, Plus, Comma, Minus}
    ensures PrintableKeycode(PrintableKeysym(k)) == Some(k)
  {
  }

  /** The keys Period to Num3 of the printable table are named back by the keysym they send. */
  lemma PeriodToNum3Invertible(k: Keycode)
    requires k in {Period, Slash, Num0, Num1, Num2, Num3}
    ensures PrintableKeycode(PrintableKeysym(k)) == Some(k)
  {
  }

  /** The keys Num4 to Num9 of the printable table are named back by the keysym they send. */
  lemma Num4ToNum9Invertible(k: Keycode)
    requires k in {Num4, Num5, Num6, Num7, Num8, Num9}
    ensures PrintableKeycode(PrintableKeysym(k)) == Some(k)
  {
  }

  /** The keys Colon to Question of the printable table are named back by the keysym they send. */
  lemma ColonToQuestionInvertible(k: Keycode)
    requires k in {Colon, Semicolon, Less, Equals, Greater, Question}
    ensures PrintableKeycode(PrintableKeysym(k)) == Some(k)
  {
  }

  /** The keys At to Caret of the printable table are named back by the keysym they send. */
  lemma AtToCaretInvertible(k: Keycode)
    requires k in {At, LeftBracket, Backslash, RightBracket, Caret}
    ensures PrintableKeycode(PrintableKeysym(k)) == Some(k)
  {
  }

  /** The keys Underscore to C of the printable table are named back by the keysym they send. */
  lemma UnderscoreToCInvertible(k: Keycode)
    requires k in {Underscore, Backquote, A, B, C}
    ensures PrintableKeycode(PrintableKeysym(k)) == Some(k)
  {
  }

  /** The keys D to G of the printable table are named back by the keysym they send. */
  lemma DToGInvertible(k: Keycode)
    requires k in {D, E, F, G}
    ensures PrintableKeycode(PrintableKeysym(k)) == Some(k)
  {
  }

  /** The keys H to K of the printable table are named back by the keysym they send. */
  lemma HToKInvertible(k: Keycode)
    requires k in {H, I, J, K}
    ensures PrintableKeycode(PrintableKeysym(k)) == Some(k)
  {
  }

  /** The keys L to O of the printable table are named back by the keysym they send. */
  lemma LToOInvertible(k: Keycode)
    requires k in {L, M, N, O}
    ensures PrintableKeycode(PrintableKeysym(k)) == Some(k)
  {
  }

  /** The keys P to S of the printable table are named back by the keysym they send. */
  lemma PToSInvertible(k: Keycode)
    requires k in {P, Q, R, S}
    ensures PrintableKeycode(PrintableKeysym(k)) == Some(k)
  {
  }

  /** The keys T to V of the printable table are named back by the keysym they send. */
  lemma TToVInvertible(k: Keycode)
    requires k in {T, U, V}
    ensures PrintableKeycode(PrintableKeysym(k)) == Some(k)
  {
  }

  /** The keys W to Y of the printable table are named back by the keysym they send. */
  lemma WToYInvertible(k: Keycode)
    requires k in {W, X, Y}
    ensures PrintableKeycode(PrintableKeysym(k)) == Some(k)
  {
  }

  /** The key Z of the printable table is named back by the keysym it sends. */
  lemma ZInvertible(k: Keycode)
    requires k in {Z}
    ensures PrintableKeycode(PrintableKeysym(k)) == Some(k)
  {
  }

  /** The keys Backspace to Delete of the special table are named back by the keysym they send. */
  lemma BackspaceToDeleteInvertible(k: Keycode)
    requires k in {Backspace, Tab, Return, Escape, Delete}
    ensures SpecialKeycode(SpecialKeysym(k)) == Some(k)
  {
  }

  /** The keys CapsLock to F3 of the special table are named back by the keysym they send. */
  lemma CapsLockToF3Invertible(k: Keycode)
    requires k in {CapsLock, F1, F2, F3}
    ensures SpecialKeycode(SpecialKeysym(k)) == Some(k)
  {
  }

  /** The keys F4 to F7 of the special table are named back by the keysym they send. */
  lemma F4ToF7Invertible(k: Keycode)
    requires k in {F4, F5, F6, F7}
    ensures SpecialKeycode(SpecialKeysym(k)) == Some(k)
  {
  }

  /** The keys F8 to F11 of the special table are named back by the keysym they send. */
  lemma F8ToF11Invertible(k: Keycode)
    requires k in {F8, F9, F10, F11}
    ensures SpecialKeycode(SpecialKeysym(k)) == Some(k)
  {
  }

  /** The keys F12 to Insert of the special table are named back by the keysym they send. */
  lemma F12ToInsertInvertible(k: Keycode)
    requires k in {F12, PrintScreen, ScrollLock, Pause, Insert}
    ensures SpecialKeycode(SpecialKeysym(k)) == Some(k)
  {
  }

  /** The keys Home to Left of the special table are named back by the keysym they send. */
  lemma HomeToLeftInvertible(k: Keycode)
    requires k in {Home, PageUp, End, PageDown, Right, Left}
    ensures SpecialKeycode(SpecialKeysym(k)) == Some(k)
  {
  }

  /** The keys Down to KpMultiply of the special table are named back by the keysym they send. */
  lemma DownToKpMultiplyInvertible(k: Keycode)
    requires k in {Down, Up, NumLockClear, KpDivide, KpMultiply}
    ensures SpecialKeycode(SpecialKeysym(k)) == Some(k)
  {
  }

  /** The keys KpMinus to Kp2 of the special table are named back by the keysym they send. */
  lemma KpMinusToKp2Invertible(k: Keycode)
    requires k in {KpMinus, KpPlus, KpEnter, Kp1, Kp2}
    ensures SpecialKeycode(SpecialKeysym(k)) == Some(k)
  {
  }

  /** The keys Kp3 to Kp7 of the special table are named back by the keysym they send. */
  lemma Kp3ToKp7Invertible(k: Keycode)
    requires k in {Kp3, Kp4, Kp5, Kp6, Kp7}
    ensures SpecialKeycode(SpecialKeysym(k)) == Some(k)
  {
  }

  /** The keys Kp8 to KpPeriod of the special table are named back by the keysym they send. */
  lemma Kp8ToKpPeriodInvertible(k: Keycode)
    requires k in {Kp8, Kp9, Kp0, KpPeriod}
    ensures SpecialKeycode(SpecialKeysym(k)) == Some(k)
  {
  }

  /** The keys F13 to F16 of the special table are named back by the keysym they send. */
  lemma F13ToF16Invertible(k: Keycode)
    requires k in {F13, F14, F15, F16}
    ensures SpecialKeycode(SpecialKeysym(k)) == Some(k)
  {
  }

  /** The keys F17 to F19 of the special table are named back by the keysym they send. */
  lemma F17ToF19Invertible(k: Keycode)
    requires k in {F17, F18, F19}
    ensures SpecialKeycode(SpecialKeysym(k)) == Some(k)
  {
  }

  /** The keys F20 to F22 of the special table are named back by the keysym they send. */
  lemma F20ToF22Invertible(k: Keycode)
    requires k in {F20, F21, F22}
    ensures SpecialKeycode(SpecialKeysym(k)) == Some(k)
  {
  }

  /** The keys F23 to Sysreq of the special table are named back by the keysym they send. */
  lemma F23ToSysreqInvertible(k: Keycode)
    requires k in {F23, F24, Menu, Sysreq}
    ensures SpecialKeycode(SpecialKeysym(k)) == Some(k)
  {
  }

  /** The keys LCtrl to LAlt of the special table are named back by the keysym they send. */
  lemma LCtrlToLAltInvertible(k: Keycode)
    requires k in {LCtrl, LShift, LAlt}
    ensures SpecialKeycode(SpecialKeysym(k)) == Some(k)
  {
  }

  /** The keys LGui to RShift of the special table are named back by the keysym they send. */
  lemma LGuiToRShiftInvertible(k: Keycode)
    requires k in {LGui, RCtrl, RShift}
    ensures SpecialKeycode(SpecialKeysym(k)) == Some(k)
  {
  }

  /** The keys RAlt to RGui of the special table are named back by the keysym they send. */
  lemma RAltToRGuiInvertible(k: Keycode)
    requires k in {RAlt, RGui}
    ensures SpecialKeycode(SpecialKeysym(k)) == Some(k)
  {
  }

  /** The printable table is undone by its inverse: the keysym a key sends names that key. */
  lemma PrintableInvertible(k: Keycode)
    ensures PrintableKeysym(k) != 0 ==> PrintableKeycode(PrintableKeysym(k)) == Some(k)
  {
    if k in {Space, Exclaim, Quotedbl, Hash, Dollar, Percent, Ampersand} {
      SpaceToAmpersandInvertible(k);
    } else if k in {Quote, LeftParen, RightParen, Asterisk, Plus, Comma, Minus} {
      QuoteToMinusInvertible(k);
    } else if k in {Period, Slash, Num0, Num1, Num2, Num3} {
      PeriodToNum3Invertible(k);
    } else if k in {Num4, Num5, Num6, Num7, Num8, Num9} {
      Num4ToNum9Invertible(k);
    } else if k in {Colon, Semicolon, Less, Equals, Greater, Question} {
      ColonToQuestionInvertible(k);
    } else if k in {At, LeftBracket, Backslash, RightBracket, Caret} {
      AtToCaretInvertible(k);
    } else if k in {Underscore, Backquote, A, B, C} {
      UnderscoreToCInvertible(k);
    } else if k in {D, E, F, G} {
      DToGInvertible(k);
    } else if k in {H, I, J, K} {
      HToKInvertible(k);
    } else if k in {L, M, N, O} {
      LToOInvertible(k);
    } else if k in {P, Q, R, S} {
      PToSInvertible(k);
    } else if k in {T, U, V} {
      TToVInvertible(k);
    } else if k in {W, X, Y} {
      WToYInvertible(k);
    } else if k in {Z} {
      ZInvertible(k);
    }
  }

  /** The special table is undone by its inverse: the keysym a key sends names that key. */
  lemma SpecialInvertible(k: Keycode)
    ensures SpecialKeysym(k) != 0 ==> SpecialKeycode(SpecialKeysym(k)) == Some(k)
  {
    if k in {Backspace, Tab, Return, Escape, Delete} {
      BackspaceToDeleteInvertible(k);
    } else if k in {CapsLock, F1, F2, F3} {
      CapsLockToF3Invertible(k);
    } else if k in {F4, F5, F6, F7} {
      F4ToF7Invertible(k);
    } else if k in {F8, F9, F10, F11} {
      F8ToF11Invertible(k);
    } else if k in {F12, PrintScreen, ScrollLock, Pause, Insert} {
      F12ToInsertInvertible(k);
    } else if k in {Home, PageUp, End, PageDown, Right, Left} {
      HomeToLeftInvertible(k);
    } else if k in {Down, Up, NumLockClear, KpDivide, KpMultiply} {
      DownToKpMultiplyInvertible(k);
    } else if k in {KpMinus, KpPlus, KpEnter, Kp1, Kp2} {
      KpMinusToKp2Invertible(k);
    } else if k in {Kp3, Kp4, Kp5, Kp6, Kp7} {
      Kp3ToKp7Invertible(k);
    } else if k in {Kp8, Kp9, Kp0, KpPeriod} {
      Kp8ToKpPeriodInvertible(k);
    } else if k in {F13, F14, F15, F16} {
      F13ToF16Invertible(k);
    } else if k in {F17, F18, F19} {
      F17ToF19Invertible(k);
    } else if k in {F20, F21, F22} {
      F20ToF22Invertible(k);
    } else if k in {F23, F24, Menu, Sysreq} {
      F23ToSysreqInvertible(k);
    } else if k in {LCtrl, LShift, LAlt} {
      LCtrlToLAltInvertible(k);
    } else if k in {LGui, RCtrl, RShift} {
      LGuiToRShiftInvertible(k);
    } else if k in {RAlt, RGui} {
      RAltToRGuiInvertible(k);
    }
  }

  /** No two keys send the same keysym, with or without Control. */
  lemma MapSpecialKeyInjective(alnumOk: bool, k1: Keycode, k2: Keycode)
    requires MapSpecialKey(alnumOk, k1).Some? && MapSpecialKey(alnumOk, k1) == MapSpecialKey(alnumOk, k2)
    ensures k1 == k2
  {
    PrintableInvertible(k1);
    PrintableInvertible(k2);
    SpecialInvertible(k1);
    SpecialInvertible(k2);
    KeysymRanges(k1);
    KeysymRanges(k2);
  }
}
