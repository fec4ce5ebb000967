/**
 * The US-keyboard character table: for a one-character string, the modifier
 * bits and the Keyboard/Keypad usage code (usage page 0x07 of the HID Usage
 * Tables) a keyboard sends to type it.
 */
module KeyMap {
  import opened HidReports

  // Modifier bits.
  const ModifierNone: JByte := 0
  const ModifierCtrl: JByte := 1
  const ModifierShift: JByte := 2
  const ModifierAlt: JByte := 4

  // Usage codes of keys no character maps to, for callers of the single-key operations.
  const KeyF1 := 0x3a
  const KeyF2 := 0x3b
  const KeyF3 := 0x3c
  const KeyF4 := 0x3d
  const KeyF5 := 0x3e
  const KeyF6 := 0x3f
  const KeyF7 := 0x40
  const KeyF8 := 0x41
  const KeyF9 := 0x42
  const KeyF10 := 0x43
  const KeyF11 := 0x44
  const KeyF12 := 0x45
  const KeyPrintScreen := 0x46
  const KeyScrollLock := 0x47
  const KeyCapsLock := 0x39
  const KeyNumLock := 0x53
  const KeyInsert := 0x49
  const KeyHome := 0x4a
  const KeyPageUp := 0x4b
  const KeyPageDown := 0x4e
  const KeyRightArrow := 0x4f
  const KeyLeftArrow := 0x50
  const KeyDownArrow := 0x51
  const KeyUpArrow := 0x52

  /** Backspace, U+0008. */
  const Backspace: char := '\U{0008}'

  /** The punctuation typed with Shift held on a US keyboard. */
  predicate IsShiftedSymbol(c: char) {
    c in {'!', '@', '#', '$', '%', '^', '&', '*', '(', ')', '_', '+', '{', '}', '|', ':', '"', '~', '<', '>', '?'}
  }

  /** The punctuation typed without Shift on a US keyboard. */
  predicate IsUnshiftedSymbol(c: char) {
    c in {'-', '=', '[', ']', '\\', ';', '\'', '`', ',', '.', '/'}
  }

  /** Characters typed with Shift held: capital letters and the shifted punctuation. */
  predicate IsShiftedChar(c: char) {
    'A' <= c <= 'Z' || IsShiftedSymbol(c)
  }

  /** Characters the table knows a key for. */
  predicate IsMappedChar(c: char) {
    'a' <= c <= 'z' || 'A' <= c <= 'Z' || '0' <= c <= '9'
    || c in {'\n', Backspace, '\t', ' '} || IsShiftedSymbol(c) || IsUnshiftedSymbol(c)
  }

  /**
   * Modifier bits for a one-character string: Shift exactly for capital letters
   * and the shifted punctuation; no modifier for every other character and for
   * any string that is not one character long.
   */
  function Modifier(key: string): (r: JByte)
    ensures r == ModifierShift <==> |key| == 1 && IsShiftedChar(key[0])
    ensures r == ModifierShift || r == ModifierNone
  {
    if |key| != 1 then ModifierNone
    else
      match key[0]
      case 'A' | 'B' | 'C' | 'D' | 'E' | 'F' | 'G' | 'H' | 'I' | 'J' | 'K' | 'L' | 'M'
         | 'N' | 'O' | 'P' | 'Q' | 'R' | 'S' | 'T' | 'U' | 'V' | 'W' | 'X' | 'Y' | 'Z'
         | '!' | '@' | '#' | '$' | '%' | '^' | '&' | '*' | '(' | ')' | '_' | '+'
         | '{' | '}' | '|' | ':' | '"' | '~' | '<' | '>' | '?' => ModifierShift
      case _ => ModifierNone
  }

  /**
   * Usage code for a one-character string: letters of either case 0x04..0x1D in
   * alphabetical order, digits 1..9 and 0 at 0x1E..0x27, newline, backspace, tab
   * and space at 0x28, 0x2A, 0x2B and 0x2C, and each punctuation key 0x2D..0x38
   * for both of its characters. Everything else is 0, "no key". The table is
   * split into its letter cases and its other cases, chosen by character range.
   */
  function KeyCode(key: string): (r: JByte)
    ensures 0 <= r <= 0x38 && r != 0x29 && r != 0x32
  {
    if |key| != 1 then 0
    else if 'A' <= key[0] <= 'Z' || 'a' <= key[0] <= 'z' then LetterKeyCode(key[0])
    else SymbolKeyCode(key[0])
  }

  /** The letter cases of the usage-code table. */
  function LetterKeyCode(c: char): (r: JByte)
    ensures 0 <= r <= 0x1d
  {
    match c
    case 'A' | 'a' => 0x04
    case 'B' | 'b' => 0x05
    case 'C' | 'c' => 0x06
    case 'D' | 'd' => 0x07
    case 'E' | 'e' => 0x08
    case 'F' | 'f' => 0x09
    case 'G' | 'g' => 0x0a
    case 'H' | 'h' => 0x0b
    case 'I' | 'i' => 0x0c
    case 'J' | 'j' => 0x0d
    case 'K' | 'k' => 0x0e
    case 'L' | 'l' => 0x0f
    case 'M' | 'm' => 0x10
    case 'N' | 'n' => 0x11
    case 'O' | 'o' => 0x12
    case 'P' | 'p' => 0x13
    case 'Q' | 'q' => 0x14
    case 'R' | 'r' => 0x15
    case 'S' | 's' => 0x16
    case 'T' | 't' => 0x17
    case 'U' | 'u' => 0x18
    case 'V' | 'v' => 0x19
    case 'W' | 'w' => 0x1a
    case 'X' | 'x' => 0x1b
    case 'Y' | 'y' => 0x1c
    case 'Z' | 'z' => 0x1d
    case _ => 0
  }

  /** The digit, whitespace and punctuation cases of the usage-code table. */
  function SymbolKeyCode(c: char): (r: JByte)
    ensures 0 <= r <= 0x38 && r != 0x29 && r != 0x32
  {
    match c
    case '!' | '1' => 0x1e
    case '@' | '2' => 0x1f
    case '#' | '3' => 0x20
    case '$' | '4' => 0x21
    case '%' | '5' => 0x22
    case '^' | '6' => 0x23
    case '&' | '7' => 0x24
    case '*' | '8' => 0x25
    case '(' | '9' => 0x26
    case ')' | '0' => 0x27
    case '\n' => 0x28
    case '\U{0008}' => 0x2a
    case '\t' => 0x2b
    case ' ' => 0x2c
    case '_' | '-' => 0x2d
    case '+' | '=' => 0x2e
    case '{' | '[' => 0x2f
    case '}' | ']' => 0x30
    case '|' | '\\' => 0x31
    case ':' | ';' => 0x33
    case '"' | '\'' => 0x34
    case '~' | '`' => 0x35
    case '<' | ',' => 0x36
    case '>' | '.' => 0x37
    case '?' | '/' => 0x38
    case _ => 0
  }

  /**
   * The digit row and the punctuation keys: for each key the character typed
   * with Shift held, the character typed without it, and the key's usage code.
   */
  const ShiftPairs: seq<(char, char, int)> := [
    ('!', '1', 0x1e), ('@', '2', 0x1f), ('#', '3', 0x20), ('$', '4', 0x21), ('%', '5', 0x22),
    ('^', '6', 0x23), ('&', '7', 0x24), ('*', '8', 0x25), ('(', '9', 0x26), (')', '0', 0x27),
    ('_', '-', 0x2d), ('+', '=', 0x2e), ('{', '[', 0x2f), ('}', ']', 0x30),
    ('|', '\\', 0x31), (':', ';', 0x33), ('"', '\'', 0x34), ('~', '`', 0x35),
    ('<', ',', 0x36), ('>', '.', 0x37), ('?', '/', 0x38)
  ]

  /**
   * The key at index i of ShiftPairs has its listed usage code for both of its
   * characters, Shift held only for the first.
   */
  predicate SharesKey(i: nat)
    requires i < |ShiftPairs|
  {
    var (shifted, plain, code) := ShiftPairs[i];
    KeyCode([shifted]) == code && KeyCode([plain]) == code
    && Modifier([shifted]) == ModifierShift && Modifier([plain]) == ModifierNone
  }

  /** Lower-case letters get 0x04..0x1D in alphabetical order. */
  lemma KeyCodeLowerCase(c: char)
    requires 'a' <= c <= 'z'
    ensures KeyCode([c]) == c as int - 'a' as int + 0x04
  {
  }

  /** Capital letters get 0x04..0x1D in alphabetical order. */
  lemma KeyCodeUpperCase(c: char)
    requires 'A' <= c <= 'Z'
    ensures KeyCode([c]) == c as int - 'A' as int + 0x04
  {
  }

  /** A capital letter and its lower-case letter share a key; only the capital holds Shift. */
  lemma LetterCasesShareKey(c: char)
    requires 'a' <= c <= 'z'
    ensures var upper := (c as int - 'a' as int + 'A' as int) as char;
            KeyCode([upper]) == KeyCode([c]) && Modifier([upper]) == ModifierShift && Modifier([c]) == ModifierNone
  {
    KeyCodeLowerCase(c);
    KeyCodeUpperCase((c as int - 'a' as int + 'A' as int) as char);
  }

  /** Digits 1..9 get 0x1E..0x26 and 0 gets 0x27, the digit row from left to right. */
  lemma KeyCodeDigits(c: char)
    requires '0' <= c <= '9'
    ensures KeyCode([c]) == if c == '0' then 0x27 else c as int - '1' as int + 0x1E
  {
  }

  /** Newline is Enter, then Backspace, Tab and the space bar; 0x29 (Escape) is skipped. */
  lemma KeyCodeControlAndSpace()
    ensures KeyCode("\n") == 0x28 && KeyCode([Backspace]) == 0x2a && KeyCode("\t") == 0x2b && KeyCode(" ") == 0x2c
  {
  }

  /** Usage code 0, "no key", is returned exactly for the characters the table does not list. */
  lemma KeyCodeZeroIffUnmapped(c: char)
    ensures KeyCode([c]) == 0 <==> !IsMappedChar(c)
  {
  }

  /** Each shifted symbol shares its usage code with its unshifted partner, and that code is the key's listed one. */
  lemma ShiftedSymbolsShareKey(i: nat)
    requires i < |ShiftPairs|
    ensures SharesKey(i)
  {
    if i < 10 {
      DigitRowSharesKey(i);
    } else if i < 14 {
      UpperPunctuationSharesKey(i);
    } else if i < 18 {
      MiddlePunctuationSharesKey(i);
    } else {
      LowerPunctuationSharesKey(i);
    }
  }

  lemma DigitRowSharesKey(i: nat)
    requires i < 10
    ensures SharesKey(i)
  {
  }

  lemma UpperPunctuationSharesKey(i: nat)
    requires 10 <= i < 14
    ensures SharesKey(i)
  {
  }

  lemma MiddlePunctuationSharesKey(i: nat)
    requires 14 <= i < 18
    ensures SharesKey(i)
  {
  }

  lemma LowerPunctuationSharesKey(i: nat)
    requires 18 <= i < |ShiftPairs|
    ensures SharesKey(i)
  {
  }
}
