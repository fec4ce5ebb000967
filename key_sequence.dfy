/**
 * What typing a text sends: one key-down per character, a release between two
 * identical consecutive characters, and one release at the end. The order of
 * presses and releases is stated on key events; each event is then rendered as
 * a keyboard report.
 */
module KeySequence {
  import opened HidReports
  import opened KeyMap

  /** A key-down of the key for a character, or the release of all keys. */
  datatype KeyEvent = Press(c: char) | Release

  /** The key-down report for one character: its modifier and its usage code. */
  function CharReport(c: char): (r: seq<JByte>)
    ensures IsKeyboardReport(r)
    ensures r[ModifierIndex] == Modifier([c]) && r[KeyIndex] == KeyCode([c])
  {
    KeyDownReport(Modifier([c]), KeyCode([c]))
  }

  /** The report that sends one key event. */
  function Render(e: KeyEvent): (r: seq<JByte>)
    ensures IsKeyboardReport(r)
  {
    match e
    case Press(c) => CharReport(c)
    case Release => KeyUpReport
  }

  /** The reports that send a sequence of key events, in the same order. */
  function Reports(events: seq<KeyEvent>): (rs: seq<seq<JByte>>)
    ensures |rs| == |events|
  {
    seq(|events|, j requires 0 <= j < |events| => Render(events[j]))
  }

  /** Report j renders event j. */
  lemma ReportsAt(events: seq<KeyEvent>)
    ensures forall j :: 0 <= j < |events| ==> Reports(events)[j] == Render(events[j])
  {
  }

  /** Rendering is done event by event, so it distributes over concatenation. */
  lemma ReportsAppend(a: seq<KeyEvent>, b: seq<KeyEvent>)
    ensures Reports(a + b) == Reports(a) + Reports(b)
  {
    ReportsAt(a + b);
    ReportsAt(a);
    ReportsAt(b);
    var whole, parts := Reports(a + b), Reports(a) + Reports(b);
    forall j | 0 <= j < |whole|
      ensures whole[j] == parts[j]
    {
      if j < |a| {
        assert (a + b)[j] == a[j];
      } else {
        assert (a + b)[j] == b[j - |a|];
      }
    }
  }

  /** Whether the character at index i repeats the character just before it. */
  predicate RepeatsPrevious(text: string, i: nat)
    requires i < |text|
  {
    i > 0 && text[i] == text[i - 1]
  }

  /**
   * The key events typing `text` produces before the final release: each
   * character's press, preceded by a release when it repeats the previous
   * character. Defined on the last character, as the text is typed.
   */
  function Presses(text: string): (events: seq<KeyEvent>)
    ensures |events| >= |text|
    ensures text != [] ==> events[|events| - 1] == Press(text[|text| - 1])
    decreases |text|
  {
    if text == [] then []
    else
      var n := |text| - 1;
      Presses(text[..n]) + (if RepeatsPrevious(text, n) then [Release] else []) + [Press(text[n])]
  }

  /** All key events typing `text` produces, ending with the release of all keys. */
  function TypedEvents(text: string): (events: seq<KeyEvent>)
    ensures |events| > |text|
    ensures events[|events| - 1] == Release
  {
    Presses(text) + [Release]
  }

  /** All reports typing `text` sends. */
  function TypedReports(text: string): (reports: seq<seq<JByte>>)
    ensures |reports| > |text|
    ensures reports[|reports| - 1] == KeyUpReport
    ensures forall j :: 0 <= j < |reports| ==> IsKeyboardReport(reports[j])
  {
    ReportsAt(TypedEvents(text));
    Reports(TypedEvents(text))
  }

  /** The number of indices i > 0 whose character equals the one at i - 1, counted from the front. */
  function RepeatCount(text: string): nat
    decreases |text|
  {
    if |text| < 2 then 0
    else (if text[0] == text[1] then 1 else 0) + RepeatCount(text[1..])
  }

  /** Counting repeats from the front agrees with counting them as the text grows at the end. */
  lemma {:induction false} RepeatCountSnoc(text: string, c: char)
    ensures RepeatCount(text + [c]) == RepeatCount(text) + (if text != [] && text[|text| - 1] == c then 1 else 0)
    decreases |text|
  {
    if |text| >= 2 {
      assert (text + [c])[1..] == text[1..] + [c];
      RepeatCountSnoc(text[1..], c);
    }
  }

  /** Before the final release, typing `text` produces one event per character and one per repeat. */
  lemma {:induction false} PressesLength(text: string)
    ensures |Presses(text)| == |text| + RepeatCount(text)
    decreases |text|
  {
    if text != [] {
      var n := |text| - 1;
      assert text == text[..n] + [text[n]];
      PressesLength(text[..n]);
      RepeatCountSnoc(text[..n], text[n]);
    }
  }

  /** Typing `text` sends one report per character, one per repeated character and one final key-up. */
  lemma TypedReportsLength(text: string)
    ensures |TypedReports(text)| == |text| + RepeatCount(text) + 1
  {
    PressesLength(text);
  }

  /** The position of character i's press: i earlier presses and one release per repeat up to index i. */
  function PressIndex(text: string, i: nat): nat
    requires i < |text|
  {
    i + RepeatCount(text[..i + 1])
  }

  /** Each press comes one event after the previous one, or two when a release is inserted between them. */
  lemma PressIndexStep(text: string, i: nat)
    requires 0 < i < |text|
    ensures PressIndex(text, i) == PressIndex(text, i - 1) + 1 + (if RepeatsPrevious(text, i) then 1 else 0)
  {
    assert text[..i + 1] == text[..i] + [text[i]];
    RepeatCountSnoc(text[..i], text[i]);
  }

  /** The last character is pressed right after the events of the text before it, and its release if any. */
  lemma PressIndexLast(text: string)
    requires text != []
    ensures var n := |text| - 1;
            PressIndex(text, n) == |Presses(text[..n])| + (if RepeatsPrevious(text, n) then 1 else 0)
  {
    var n := |text| - 1;
    PressesLength(text[..n]);
    assert text[..n + 1] == text == text[..n] + [text[n]];
    RepeatCountSnoc(text[..n], text[n]);
  }

  /**
   * Character i of `text` is pressed at PressIndex(text, i), in input order,
   * and the first character is pressed first.
   */
  lemma {:induction false} PressesAt(text: string, i: nat)
    requires i < |text|
    ensures PressIndex(text, i) < |Presses(text)|
    ensures Presses(text)[PressIndex(text, i)] == Press(text[i])
    ensures i == 0 ==> PressIndex(text, i) == 0
    decreases |text|
  {
    var n := |text| - 1;
    PressIndexLast(text);
    if i < n {
      PressesAt(text[..n], i);
      assert text[..n][..i + 1] == text[..i + 1];
    }
  }

  /**
   * The event just before character i's press is a release exactly when the
   * character repeats its predecessor; otherwise it is the predecessor's press.
   */
  lemma {:induction false} PressesBefore(text: string, i: nat)
    requires 0 < i < |text|
    ensures PressIndex(text, i) <= |Presses(text)|
    ensures Presses(text)[PressIndex(text, i) - 1] == Release <==> RepeatsPrevious(text, i)
    ensures !RepeatsPrevious(text, i) ==> Presses(text)[PressIndex(text, i) - 1] == Press(text[i - 1])
    decreases |text|
  {
    PressesAt(text, i);
    PressesAt(text, i - 1);
    PressIndexStep(text, i);
    if RepeatsPrevious(text, i) {
      var n := |text| - 1;
      PressIndexLast(text);
      if i < n {
        PressesBefore(text[..n], i);
        assert text[..n][..i + 1] == text[..i + 1];
      }
    }
  }

  /**
   * Typing one more character appends its key-down report to what the text
   * before it sends, preceded by a key-up report exactly when the character
   * equals the one before it.
   */
  lemma PressesReportsSnoc(text: string, i: nat)
    requires i < |text|
    ensures Reports(Presses(text[..i + 1]))
         == Reports(Presses(text[..i])) + (if i > 0 && text[i - 1] == text[i] then [KeyUpReport] else []) + [CharReport(text[i])]
  {
    var release := if RepeatsPrevious(text[..i + 1], i) then [Release] else [];
    assert text[..i + 1][..i] == text[..i];
    assert Presses(text[..i + 1]) == Presses(text[..i]) + release + [Press(text[i])];
    ReportsAppend(Presses(text[..i]), release);
    ReportsAppend(Presses(text[..i]) + release, [Press(text[i])]);
  }

  /** Sending a text's next character after the reports of the text before it. */
  lemma SendStep(prev: seq<seq<JByte>>, text: string, i: nat)
    requires i < |text|
    ensures prev + Reports(Presses(text[..i])) + (if i > 0 && text[i - 1] == text[i] then [KeyUpReport] else []) + [CharReport(text[i])]
         == prev + Reports(Presses(text[..i + 1]))
  {
    PressesReportsSnoc(text, i);
  }

  /** Typing ends in the released state: the last event is a release, and so is the last report. */
  lemma TypedEndsReleased(text: string)
    ensures TypedEvents(text)[|TypedEvents(text)| - 1] == Release
    ensures TypedReports(text)[|TypedReports(text)| - 1] == KeyUpReport
  {
  }

  /** Every report typing `text` sends has the keyboard report's fixed shape. */
  lemma TypedReportsShape(text: string)
    ensures forall j :: 0 <= j < |TypedReports(text)| ==> IsKeyboardReport(TypedReports(text)[j])
  {
  }

  /** An empty text sends the key-up report alone. */
  lemma TypedEmpty()
    ensures TypedEvents("") == [Release]
    ensures TypedReports("") == [KeyUpReport]
  {
  }

  /** Two different characters are pressed one after the other, then released. */
  lemma TypedTwoDifferent()
    ensures TypedEvents("ab") == [Press('a'), Press('b'), Release]
  {
    assert "ab"[..1] == "a" && "a"[..0] == "";
    assert Presses("a") == [Press('a')];
    assert !RepeatsPrevious("ab", 1);
  }

  /** A repeated character is released before it is pressed again. */
  lemma TypedTwoSame()
    ensures TypedEvents("aa") == [Press('a'), Release, Press('a'), Release]
  {
    assert "aa"[..1] == "a" && "a"[..0] == "";
    assert Presses("a") == [Press('a')];
    assert RepeatsPrevious("aa", 1);
  }

  /**
   * An unmapped character sends modifier 0 and usage 0, so its key-down report
   * is byte for byte the key-up report.
   */
  lemma UnmappedCharIsKeyUp(c: char)
    requires !IsMappedChar(c)
    ensures CharReport(c) == KeyUpReport
  {
    KeyCodeZeroIffUnmapped(c);
  }
}
