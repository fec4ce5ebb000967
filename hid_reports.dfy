/**
 * The two fixed-layout HID input reports of the combined mouse/keyboard
 * peripheral: a 5-byte mouse report (report ID 1) and a 9-byte keyboard report
 * (report ID 2), with the field sizes and logical ranges that the report
 * descriptor declares for them.
 */
module HidReports {

  datatype Option<T> = None | Some(value: T)

  /** A Java `byte`: a signed two's-complement 8-bit value. */
  type JByte = b: int | -128 <= b <= 127

  /** A Java `int`: a signed two's-complement 32-bit value. */
  type Int32 = x: int | -0x8000_0000 <= x < 0x8000_0000

  /** The narrowing cast `(byte) x`: keeps the low eight bits, read as two's complement. */
  function ToByte(x: int): (b: JByte)
    ensures (x - b) % 256 == 0
    ensures -128 <= x <= 127 ==> b == x
  {
    (x + 128) % 256 - 128
  }

  // Report IDs and byte positions inside a report.
  const MouseReportId: JByte := 0x01
  const KeyboardReportId: JByte := 0x02

  const ReportIdIndex := 0
  const ButtonIndex := 1
  const XAxisIndex := 2
  const YAxisIndex := 3
  const WheelIndex := 4
  const ModifierIndex := 1
  const KeyIndex := 3

  // Input fields declared by the report descriptor, in bits. The mouse has three
  // one-bit buttons, five bits of constant padding, and X, Y and Wheel as three
  // signed bytes; the keyboard has eight one-bit modifiers, one reserved byte and
  // six key bytes. The 5+3 LED bits belong to the output report.
  const MouseButtonBits := 3
  const MousePaddingBits := 5
  const MouseAxisCount := 3
  const MouseAxisBits := 8
  const KeyboardModifierBits := 8
  const KeyboardReservedBits := 8
  const KeyboardKeyCount := 6
  const KeyboardKeyBits := 8

  /** One report-ID byte followed by the declared mouse input fields. */
  const MouseReportLength := 1 + (MouseButtonBits + MousePaddingBits + MouseAxisCount * MouseAxisBits) / 8
  /** One report-ID byte followed by the declared keyboard input fields. */
  const KeyboardReportLength := 1 + (KeyboardModifierBits + KeyboardReservedBits + KeyboardKeyCount * KeyboardKeyBits) / 8

  // Logical range of X, Y and Wheel declared by the descriptor (0x81 .. 0x7f).
  const AxisMin := -127
  const AxisMax := 127

  function Distance(a: int, b: int): nat {
    if a <= b then b - a else a - b
  }

  /**
   * A motion value forced into the axis range: unchanged when it already lies
   * there, otherwise the nearest end of the range. -128, which a signed byte
   * could hold, is never produced.
   */
  function Clamp(v: int): (r: int)
    ensures AxisMin <= r <= AxisMax
    ensures AxisMin <= v <= AxisMax ==> r == v
    ensures forall y :: AxisMin <= y <= AxisMax ==> Distance(r, v) <= Distance(y, v)
  {
    if v > AxisMax then AxisMax else if v < AxisMin then AxisMin else v
  }

  /**
   * The button byte: bit 0 is the left button, bit 1 the right button and bit 2
   * the middle button; the upper five bits are zero.
   */
  function ButtonBits(left: bool, right: bool, middle: bool): (b: int)
    ensures 0 <= b < 8
    ensures (b % 2 == 1) == left
    ensures (b / 2 % 2 == 1) == right
    ensures (b / 4 == 1) == middle
  {
    (if left then 1 else 0) + (if right then 2 else 0) + (if middle then 4 else 0)
  }

  /** The mouse report built from one pointer movement. */
  function MouseReport(dx: int, dy: int, wheel: int, left: bool, right: bool, middle: bool): (r: seq<JByte>)
    ensures |r| == MouseReportLength == 5
    ensures r[ReportIdIndex] == MouseReportId
    ensures 0 <= r[ButtonIndex] < 8
    ensures forall i :: XAxisIndex <= i <= WheelIndex ==> AxisMin <= r[i] <= AxisMax
  {
    [MouseReportId, ButtonBits(left, right, middle), Clamp(dx), Clamp(dy), Clamp(wheel)]
  }

  /** What a host reads out of a mouse report, following the descriptor. */
  datatype MouseInput = MouseInput(dx: int, dy: int, wheel: int, left: bool, right: bool, middle: bool)

  predicate InAxisRange(v: int) {
    AxisMin <= v <= AxisMax
  }

  /**
   * Host-side reading of a mouse report: the report ID must be 1, the padding
   * bits zero and every axis inside the declared logical range.
   */
  function DecodeMouseReport(r: seq<JByte>): Option<MouseInput> {
    if |r| != MouseReportLength || r[ReportIdIndex] != MouseReportId || !(0 <= r[ButtonIndex] < 8)
       || !InAxisRange(r[XAxisIndex]) || !InAxisRange(r[YAxisIndex]) || !InAxisRange(r[WheelIndex])
    then None
    else
      var b := r[ButtonIndex];
      Some(MouseInput(r[XAxisIndex], r[YAxisIndex], r[WheelIndex], b % 2 == 1, b / 2 % 2 == 1, b / 4 == 1))
  }

  /** Every mouse report reads back as the clamped movement and the exact button state. */
  lemma MouseReportDecodes(dx: int, dy: int, wheel: int, left: bool, right: bool, middle: bool)
    ensures DecodeMouseReport(MouseReport(dx, dy, wheel, left, right, middle))
         == Some(MouseInput(Clamp(dx), Clamp(dy), Clamp(wheel), left, right, middle))
    ensures InAxisRange(dx) && InAxisRange(dy) && InAxisRange(wheel) ==>
              (DecodeMouseReport(MouseReport(dx, dy, wheel, left, right, middle))
               == Some(MouseInput(dx, dy, wheel, left, right, middle)))
  {
  }

  /** Every report the host accepts is the report of the movement it reads. */
  lemma DecodedMouseReportIsBuilt(r: seq<JByte>)
    requires DecodeMouseReport(r).Some?
    ensures var m := DecodeMouseReport(r).value;
            MouseReport(m.dx, m.dy, m.wheel, m.left, m.right, m.middle) == r
  {
    var m := DecodeMouseReport(r).value;
    var b := r[ButtonIndex];
    assert ButtonBits(m.left, m.right, m.middle) == b by {
      assert b == b % 2 + 2 * (b / 2 % 2) + 4 * (b / 4);
    }
  }

  /** A keyboard report pressing `keyCode` with the modifier bits `modifier`. */
  function KeyDownReport(modifier: JByte, keyCode: JByte): (r: seq<JByte>)
    ensures |r| == KeyboardReportLength == 9
    ensures r[ReportIdIndex] == KeyboardReportId && r[ModifierIndex] == modifier && r[KeyIndex] == keyCode
    ensures forall i :: 0 <= i < |r| && i != ReportIdIndex && i != ModifierIndex && i != KeyIndex ==> r[i] == 0
  {
    [KeyboardReportId, modifier, 0, keyCode, 0, 0, 0, 0, 0]
  }

  /** The keyboard report with no modifier and no key pressed. */
  const KeyUpReport: seq<JByte> := [KeyboardReportId, 0, 0, 0, 0, 0, 0, 0, 0]

  /** The key-up report is the key-down report of no modifier and no key: only its report ID is set. */
  lemma KeyUpReportIsEmpty()
    ensures KeyUpReport == KeyDownReport(0, 0)
    ensures |KeyUpReport| == KeyboardReportLength && KeyUpReport[ReportIdIndex] == KeyboardReportId
    ensures forall i :: ReportIdIndex < i < |KeyUpReport| ==> KeyUpReport[i] == 0
  {
  }

  /** The fixed shape of a keyboard input report: only the modifier and the first key slot vary. */
  predicate IsKeyboardReport(r: seq<JByte>) {
    |r| == KeyboardReportLength && r[ReportIdIndex] == KeyboardReportId && r[2] == 0
    && forall i :: KeyIndex < i < |r| ==> r[i] == 0
  }
}
