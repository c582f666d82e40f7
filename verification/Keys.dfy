/** Key identities on the way from a switch to Linux: firmware key, scancode, physical key,
    keycode. */
module Keys {

  /** Key states as they travel in the event FIFO. */
  datatype KeyState = Idle | Pressed | Hold | Released

  datatype Event = Event(scan: nat, state: KeyState)

  // --- Physical keys (enum phys_key) ------------------------------------------------------

  const PK_NONE := 0
  const PK_A := 1
  const PK_0 := 27
  const PK_SPACE := 37
  const PK_ENTER := 38
  const PK_TAB := 39
  const PK_ESC := 40
  const PK_BACKSPACE := 41
  const PK_DOT := 42
  const PK_COMMA := 43
  const PK_SEMICOLON := 44
  const PK_APOSTROPHE := 45
  const PK_MINUS := 46
  const PK_EQUAL := 47
  const PK_SLASH := 48
  const PK_BACKSLASH := 49
  const PK_LBRACKET := 50
  const PK_RBRACKET := 51
  const PK_GRAVE := 52
  const PK_F1 := 53
  const PK_F10 := 62
  const PK_UP := 63
  const PK_DOWN := 64
  const PK_LEFT := 65
  const PK_RIGHT := 66
  const PK_HOME := 67
  const PK_END := 68
  const PK_INSERT := 69
  const PK_DELETE := 70
  const PK_PAUSE := 73
  const PK_CAPSLOCK := 74
  const PK_LSHIFT := 75
  const PK_RSHIFT := 76
  const PK_LALT := 77
  const PK_LCTRL := 78
  const PK_POWER := 79
  const PK_MAX := 80

  /** `scancode_to_phys` */
  function ScanToPhys(sc: nat): (p: nat)
    ensures p < PK_MAX
  {
    if 0x41 <= sc <= 0x5A then PK_A + sc - 0x41       // letters
    else if 0x30 <= sc <= 0x39 then PK_0 + sc - 0x30  // digits
    else if 0x81 <= sc <= 0x89 then PK_F1 + sc - 0x81 // F1 to F9
    else match sc
      case 0x08 => PK_BACKSPACE
      case 0x09 => PK_TAB
      case 0x0A => PK_ENTER
      case 0x20 => PK_SPACE
      case 0x27 => PK_APOSTROPHE
      case 0x2C => PK_COMMA
      case 0x2D => PK_MINUS
      case 0x2E => PK_DOT
      case 0x2F => PK_SLASH
      case 0x3B => PK_SEMICOLON
      case 0x3D => PK_EQUAL
      case 0x5B => PK_LBRACKET
      case 0x5C => PK_BACKSLASH
      case 0x5D => PK_RBRACKET
      case 0x60 => PK_GRAVE
      case 0x90 => PK_F10
      case 0x91 => PK_POWER
      case 0xA1 => PK_LALT
      case 0xA2 => PK_LSHIFT
      case 0xA3 => PK_RSHIFT
      case 0xA5 => PK_LCTRL
      case 0xB1 => PK_ESC
      case 0xB4 => PK_LEFT
      case 0xB5 => PK_UP
      case 0xB6 => PK_DOWN
      case 0xB7 => PK_RIGHT
      case 0xC1 => PK_CAPSLOCK
      case 0xD0 => PK_PAUSE
      case 0xD1 => PK_INSERT
      case 0xD2 => PK_HOME
      case 0xD4 => PK_DELETE
      case 0xD5 => PK_END
      case _ => PK_NONE
  }

  // --- Firmware keys: 56 matrix positions, then 12 buttons ------------------------------------

  const KEYS := 68

  /** The matrix position that has no key. */
  const BLANK_KEY := 55

  /** The firmware's modifier numbers. */
  const MOD_NONE := 0
  const MOD_ALT := 2
  const MOD_SHL := 3
  const MOD_SHR := 4
  const MOD_CTRL := 5
  const MOD_LAST := 6

  /** `kbd_entries` and `btn_entries`: the character of a key, 0 where there is none. */
  function CharOf(k: nat): nat {
    if k < 8 then (match k
      case 0 => 0x85 case 1 => 0x84 case 2 => 0x83 case 3 => 0x82 case 4 => 0x81 case 5 => 0x60 case 6 => 0x33
      case _ => 0x32)
    else if k < 16 then (match k
      case 8 => 0x08 case 9 => 0xD4 case 10 => 0xC1 case 11 => 0x09 case 12 => 0xB1 case 13 => 0x34
      case 14 => 0x45 case _ => 0x57)
    else if k < 24 then (match k
      case 16 => 0x50 case 17 => 0x3D case 18 => 0x2D case 19 => 0x5C case 20 => 0x2F case 21 => 0x52
      case 22 => 0x53 case _ => 0x31)
    else if k < 32 then (match k
      case 24 => 0x0A case 25 => 0x38 case 26 => 0x37 case 27 => 0x36 case 28 => 0x35 case 29 => 0x46
      case 30 => 0x58 case _ => 0x51)
    else if k < 40 then (match k
      case 32 => 0x2E case 33 => 0x49 case 34 => 0x55 case 35 => 0x59 case 36 => 0x54 case 37 => 0x56
      case 38 => 0x3B case _ => 0x41)
    else if k < 48 then (match k
      case 40 => 0x4C case 41 => 0x4B case 42 => 0x4A case 43 => 0x48 case 44 => 0x47 case 45 => 0x43
      case 46 => 0x27 case _ => 0x5A)
    else if k < 56 then (match k
      case 48 => 0x4F case 49 => 0x2C case 50 => 0x4D case 51 => 0x4E case 52 => 0x42 case 53 => 0x44 case 54 => 0x20
      case _ => 0)
    else if k < 68 then (match k
      case 60 => 0x30 case 61 => 0x39 case 62 => 0x5D case 63 => 0x5B case 64 => 0xB7 case 65 => 0xB5
      case 66 => 0xB6 case 67 => 0xB4
      case _ => 0)
    else 0
  }

  function ModOf(k: nat): nat {
    match k
    case 56 => MOD_ALT
    case 57 => MOD_CTRL
    case 58 => MOD_SHL
    case 59 => MOD_SHR
    case _ => MOD_NONE
  }

  /** What a key is reported as with modifiers reported and not applied; 0 is never reported. */
  function ScanOf(k: nat): nat
    requires k < KEYS
  {
    match k
    case 56 => 0xA1
    case 57 => 0xA5
    case 58 => 0xA2
    case 59 => 0xA3
    case _ => CharOf(k)
  }

  function PhysOf(k: nat): nat
    requires k < KEYS
  {
    ScanToPhys(ScanOf(k))
  }

  /** The firmware key behind a physical key, KEYS if the keyboard has none. */
  function KeyOf(p: nat): nat {
    if p < 9 then (match p
      case 1 => 39 case 2 => 52 case 3 => 45 case 4 => 53 case 5 => 14 case 6 => 29 case 7 => 44 case 8 => 43
      case _ => KEYS)
    else if p < 18 then (match p
      case 9 => 33 case 10 => 42 case 11 => 41 case 12 => 40 case 13 => 50 case 14 => 51 case 15 => 48
      case 16 => 16 case _ => 31)
    else if p < 27 then (match p
      case 18 => 21 case 19 => 22 case 20 => 36 case 21 => 34 case 22 => 37 case 23 => 15 case 24 => 30
      case 25 => 35 case _ => 47)
    else if p < 37 then (match p
      case 27 => 60 case 28 => 23 case 29 => 7 case 30 => 6 case 31 => 13 case 32 => 28 case 33 => 27
      case 34 => 26 case 35 => 25 case _ => 61)
    else if p < 45 then (match p
      case 37 => 54 case 38 => 24 case 39 => 11 case 40 => 12 case 41 => 8 case 42 => 32 case 43 => 49
      case _ => 38)
    else if p < 53 then (match p
      case 45 => 46 case 46 => 18 case 47 => 17 case 48 => 20 case 49 => 19 case 50 => 63 case 51 => 62
      case _ => 5)
    else if p < 63 then (match p
      case 53 => 4 case 54 => 3 case 55 => 2 case 56 => 1 case 57 => 0 case _ => KEYS)
    else if p < 71 then (match p
      case 63 => 65 case 64 => 66 case 65 => 67 case 66 => 64 case 70 => 9 case _ => KEYS)
    else if p < 80 then (match p
      case 74 => 10 case 75 => 58 case 76 => 59 case 77 => 56 case 78 => 57 case _ => KEYS)
    else KEYS
  }

  // Every key with its scancode and its physical key, read off the three tables.

  lemma Row0()
    ensures ScanOf(0) == 0x85 && ScanToPhys(0x85) == 57 && KeyOf(57) == 0
    ensures ScanOf(1) == 0x84 && ScanToPhys(0x84) == 56 && KeyOf(56) == 1
    ensures ScanOf(2) == 0x83 && ScanToPhys(0x83) == 55 && KeyOf(55) == 2
    ensures ScanOf(3) == 0x82 && ScanToPhys(0x82) == 54 && KeyOf(54) == 3
    ensures ScanOf(4) == 0x81 && ScanToPhys(0x81) == 53 && KeyOf(53) == 4
    ensures ScanOf(5) == 0x60 && ScanToPhys(0x60) == 52 && KeyOf(52) == 5
    ensures ScanOf(6) == 0x33 && ScanToPhys(0x33) == 30 && KeyOf(30) == 6
    ensures ScanOf(7) == 0x32 && ScanToPhys(0x32) == 29 && KeyOf(29) == 7
  {
  }

  lemma Row1()
    ensures ScanOf(8) == 0x08 && ScanToPhys(0x08) == 41 && KeyOf(41) == 8
    ensures ScanOf(9) == 0xD4 && ScanToPhys(0xD4) == 70 && KeyOf(70) == 9
    ensures ScanOf(10) == 0xC1 && ScanToPhys(0xC1) == 74 && KeyOf(74) == 10
    ensures ScanOf(11) == 0x09 && ScanToPhys(0x09) == 39 && KeyOf(39) == 11
    ensures ScanOf(12) == 0xB1 && ScanToPhys(0xB1) == 40 && KeyOf(40) == 12
    ensures ScanOf(13) == 0x34 && ScanToPhys(0x34) == 31 && KeyOf(31) == 13
    ensures ScanOf(14) == 0x45 && ScanToPhys(0x45) == 5 && KeyOf(5) == 14
    ensures ScanOf(15) == 0x57 && ScanToPhys(0x57) == 23 && KeyOf(23) == 15
  {
  }

  lemma Row2()
    ensures ScanOf(16) == 0x50 && ScanToPhys(0x50) == 16 && KeyOf(16) == 16
    ensures ScanOf(17) == 0x3D && ScanToPhys(0x3D) == 47 && KeyOf(47) == 17
    ensures ScanOf(18) == 0x2D && ScanToPhys(0x2D) == 46 && KeyOf(46) == 18
    ensures ScanOf(19) == 0x5C && ScanToPhys(0x5C) == 49 && KeyOf(49) == 19
    ensures ScanOf(20) == 0x2F && ScanToPhys(0x2F) == 48 && KeyOf(48) == 20
    ensures ScanOf(21) == 0x52 && ScanToPhys(0x52) == 18 && KeyOf(18) == 21
    ensures ScanOf(22) == 0x53 && ScanToPhys(0x53) == 19 && KeyOf(19) == 22
    ensures ScanOf(23) == 0x31 && ScanToPhys(0x31) == 28 && KeyOf(28) == 23
  {
  }

  lemma Row3()
    ensures ScanOf(24) == 0x0A && ScanToPhys(0x0A) == 38 && KeyOf(38) == 24
    ensures ScanOf(25) == 0x38 && ScanToPhys(0x38) == 35 && KeyOf(35) == 25
    ensures ScanOf(26) == 0x37 && ScanToPhys(0x37) == 34 && KeyOf(34) == 26
    ensures ScanOf(27) == 0x36 && ScanToPhys(0x36) == 33 && KeyOf(33) == 27
    ensures ScanOf(28) == 0x35 && ScanToPhys(0x35) == 32 && KeyOf(32) == 28
    ensures ScanOf(29) == 0x46 && ScanToPhys(0x46) == 6 && KeyOf(6) == 29
    ensures ScanOf(30) == 0x58 && ScanToPhys(0x58) == 24 && KeyOf(24) == 30
    ensures ScanOf(31) == 0x51 && ScanToPhys(0x51) == 17 && KeyOf(17) == 31
  {
  }

  lemma Row4()
    ensures ScanOf(32) == 0x2E && ScanToPhys(0x2E) == 42 && KeyOf(42) == 32
    ensures ScanOf(33) == 0x49 && ScanToPhys(0x49) == 9 && KeyOf(9) == 33
    ensures ScanOf(34) == 0x55 && ScanToPhys(0x55) == 21 && KeyOf(21) == 34
    ensures ScanOf(35) == 0x59 && ScanToPhys(0x59) == 25 && KeyOf(25) == 35
    ensures ScanOf(36) == 0x54 && ScanToPhys(0x54) == 20 && KeyOf(20) == 36
    ensures ScanOf(37) == 0x56 && ScanToPhys(0x56) == 22 && KeyOf(22) == 37
    ensures ScanOf(38) == 0x3B && ScanToPhys(0x3B) == 44 && KeyOf(44) == 38
    ensures ScanOf(39) == 0x41 && ScanToPhys(0x41) == 1 && KeyOf(1) == 39
  {
  }

  lemma Row5()
    ensures ScanOf(40) == 0x4C && ScanToPhys(0x4C) == 12 && KeyOf(12) == 40
    ensures ScanOf(41) == 0x4B && ScanToPhys(0x4B) == 11 && KeyOf(11) == 41
    ensures ScanOf(42) == 0x4A && ScanToPhys(0x4A) == 10 && KeyOf(10) == 42
    ensures ScanOf(43) == 0x48 && ScanToPhys(0x48) == 8 && KeyOf(8) == 43
    ensures ScanOf(44) == 0x47 && ScanToPhys(0x47) == 7 && KeyOf(7) == 44
    ensures ScanOf(45) == 0x43 && ScanToPhys(0x43) == 3 && KeyOf(3) == 45
    ensures ScanOf(46) == 0x27 && ScanToPhys(0x27) == 45 && KeyOf(45) == 46
    ensures ScanOf(47) == 0x5A && ScanToPhys(0x5A) == 26 && KeyOf(26) == 47
  {
  }

  lemma Row6()
    ensures ScanOf(48) == 0x4F && ScanToPhys(0x4F) == 15 && KeyOf(15) == 48
    ensures ScanOf(49) == 0x2C && ScanToPhys(0x2C) == 43 && KeyOf(43) == 49
    ensures ScanOf(50) == 0x4D && ScanToPhys(0x4D) == 13 && KeyOf(13) == 50
    ensures ScanOf(51) == 0x4E && ScanToPhys(0x4E) == 14 && KeyOf(14) == 51
    ensures ScanOf(52) == 0x42 && ScanToPhys(0x42) == 2 && KeyOf(2) == 52
    ensures ScanOf(53) == 0x44 && ScanToPhys(0x44) == 4 && KeyOf(4) == 53
    ensures ScanOf(54) == 0x20 && ScanToPhys(0x20) == 37 && KeyOf(37) == 54
  {
  }

  lemma ModifierButtons()
    ensures ScanOf(56) == 0xA1 && ScanToPhys(0xA1) == 77 && KeyOf(77) == 56
    ensures ScanOf(57) == 0xA5 && ScanToPhys(0xA5) == 78 && KeyOf(78) == 57
    ensures ScanOf(58) == 0xA2 && ScanToPhys(0xA2) == 75 && KeyOf(75) == 58
    ensures ScanOf(59) == 0xA3 && ScanToPhys(0xA3) == 76 && KeyOf(76) == 59
    ensures ScanOf(60) == 0x30 && ScanToPhys(0x30) == 27 && KeyOf(27) == 60
    ensures ScanOf(61) == 0x39 && ScanToPhys(0x39) == 36 && KeyOf(36) == 61
  {
  }

  lemma ArrowButtons()
    ensures ScanOf(62) == 0x5D && ScanToPhys(0x5D) == 51 && KeyOf(51) == 62
    ensures ScanOf(63) == 0x5B && ScanToPhys(0x5B) == 50 && KeyOf(50) == 63
    ensures ScanOf(64) == 0xB7 && ScanToPhys(0xB7) == 66 && KeyOf(66) == 64
    ensures ScanOf(65) == 0xB5 && ScanToPhys(0xB5) == 63 && KeyOf(63) == 65
    ensures ScanOf(66) == 0xB6 && ScanToPhys(0xB6) == 64 && KeyOf(64) == 66
    ensures ScanOf(67) == 0xB4 && ScanToPhys(0xB4) == 65 && KeyOf(65) == 67
  {
  }

  /** Two keys never share a physical key, and every key but the blank one has its own. */
  lemma KeyOfPhysOf(k: nat)
    requires k < KEYS && k != BLANK_KEY
    ensures 0 < PhysOf(k) < PK_POWER && KeyOf(PhysOf(k)) == k
  {
    hide ScanOf, ScanToPhys, KeyOf;
    if k < 8 { Row0(); } else if k < 16 { Row1(); } else if k < 24 { Row2(); }
    else if k < 32 { Row3(); } else if k < 40 { Row4(); } else if k < 48 { Row5(); }
    else if k < 55 { Row6(); } else if k < 62 { ModifierButtons(); } else { ArrowButtons(); }
  }
}
