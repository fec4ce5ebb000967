/**
 * The combined mouse/keyboard peripheral: the mouse operation with its cache
 * of the last mouse report sent, the text and single-key keyboard operations,
 * and the queue of input reports handed to the Bluetooth transport, in the
 * order they are handed over.
 */
module Peripheral {
  import opened HidReports
  import opened KeyMap
  import opened KeySequence
  import opened MouseDedup

  /** Setting bits 0, 1 and 2 of a zero byte for the pressed buttons gives the button byte. */
  lemma ButtonByteBits(button: bv8, left: bool, right: bool, middle: bool)
    requires button == ((0 | (if left then 1 else 0)) | (if right then 2 else 0)) | (if middle then 4 else 0)
    ensures (button & 7) as int == ButtonBits(left, right, middle)
  {
    if left {
      if right {
        if middle { assert button == 7; } else { assert button == 3; }
      } else {
        if middle { assert button == 5; } else { assert button == 1; }
      }
    } else {
      if right {
        if middle { assert button == 6; } else { assert button == 2; }
      } else {
        if middle { assert button == 4; } else { assert button == 0; }
      }
    }
  }

  /** Forces a motion value into the axis range, as the two tests on each value do. */
  method ClampAxis(v: Int32) returns (r: int)
    ensures r == Clamp(v)
  {
    r := v;
    if r > AxisMax { r := AxisMax; }
    if r < AxisMin { r := AxisMin; }
  }

  /** Sets bit 0, 1 and 2 of a zero byte for the left, right and middle button. */
  method ButtonByte(leftButton: bool, rightButton: bool, middleButton: bool) returns (button: bv8)
    ensures (button & 7) as int == ButtonBits(leftButton, rightButton, middleButton)
  {
    button := 0;
    if leftButton {
      button := button | 1;
    }
    if rightButton {
      button := button | 2;
    }
    if middleButton {
      button := button | 4;
    }
    ButtonByteBits(button, leftButton, rightButton, middleButton);
  }

  class KbMousePeripheral {
    /** The last mouse report sent; five zero bytes before the first. */
    const lastSent: array<JByte>
    /** The shared key-up report: every byte but the report ID stays zero. */
    const emptyReport: array<JByte>
    /** Every input report handed to the transport, oldest first. */
    var sent: seq<seq<JByte>>

    ghost predicate Valid()
      reads this, emptyReport
    {
      lastSent.Length == MouseReportLength && emptyReport.Length == KeyboardReportLength
      && forall i :: ReportIdIndex < i < KeyboardReportLength ==> emptyReport[i] == 0
    }

    constructor()
      ensures Valid()
      ensures fresh(lastSent) && fresh(emptyReport)
      ensures lastSent[..] == InitialCache
      ensures sent == []
    {
      lastSent := new JByte[MouseReportLength](_ => 0);
      emptyReport := new JByte[KeyboardReportLength](_ => 0);
      sent := [];
      new;
      assert lastSent[..] == InitialCache;
    }

    /** Hands a copy of the report's current bytes to the transport. */
    method AddInputReport(report: array<JByte>)
      modifies this`sent
      ensures sent == old(sent) + [report[..]]
    {
      sent := sent + [report[..]];
    }

    /** Builds the mouse report of one movement: clamped axes and the button bits. */
    method BuildMouseReport(dx: Int32, dy: Int32, wheel: Int32, leftButton: bool, rightButton: bool, middleButton: bool)
      returns (report: array<JByte>)
      ensures fresh(report)
      ensures report[..] == MouseReport(dx, dy, wheel, leftButton, rightButton, middleButton)
    {
      var x := ClampAxis(dx);
      var y := ClampAxis(dy);
      var w := ClampAxis(wheel);
      var button := ButtonByte(leftButton, rightButton, middleButton);

      report := new JByte[MouseReportLength](_ => 0);
      report[ReportIdIndex] := MouseReportId;
      report[ButtonIndex] := ToByte((button & 7) as int);
      report[XAxisIndex] := ToByte(x);
      report[YAxisIndex] := ToByte(y);
      report[WheelIndex] := ToByte(w);
      assert report[..] == [MouseReportId, ButtonBits(leftButton, rightButton, middleButton), Clamp(dx), Clamp(dy), Clamp(wheel)];
    }

    /**
     * Moves the pointer: builds the report, and sends and caches it unless it
     * and the cached report are both all-zero. The report ID is never zero,
     * so that test never passes: every call sends exactly its report.
     */
    method MovePointer(dx: Int32, dy: Int32, wheel: Int32, leftButton: bool, rightButton: bool, middleButton: bool)
      requires Valid()
      modifies this`sent, lastSent
      ensures Valid()
      ensures sent == old(sent) + [MouseReport(dx, dy, wheel, leftButton, rightButton, middleButton)]
      ensures lastSent[..] == MouseReport(dx, dy, wheel, leftButton, rightButton, middleButton)
      ensures unchanged(emptyReport)
    {
      var report := BuildMouseReport(dx, dy, wheel, leftButton, rightButton, middleButton);
      if SuppressedAsWritten(lastSent[..], report[..]) {
        assert false;
        return;
      }
      lastSent[0] := report[0];
      lastSent[1] := report[1];
      lastSent[2] := report[2];
      lastSent[3] := report[3];
      lastSent[4] := report[4];
      AddInputReport(report);
    }

    /**
     * Moves the pointer under the intended filter, which compares payloads:
     * the step from the cached report to the new one decides what is sent and
     * cached.
     */
    method MovePointerIntended(dx: Int32, dy: Int32, wheel: Int32, leftButton: bool, rightButton: bool, middleButton: bool)
      requires Valid()
      modifies this`sent, lastSent
      ensures Valid()
      ensures var step := IntendedStep(old(lastSent[..]), MouseReport(dx, dy, wheel, leftButton, rightButton, middleButton));
              sent == old(sent) + step.sent && lastSent[..] == step.last
      ensures unchanged(emptyReport)
    {
      var report := BuildMouseReport(dx, dy, wheel, leftButton, rightButton, middleButton);
      if SuppressedIntended(lastSent[..], report[..]) {
        return;
      }
      lastSent[0] := report[0];
      lastSent[1] := report[1];
      lastSent[2] := report[2];
      lastSent[3] := report[3];
      lastSent[4] := report[4];
      assert lastSent[..] == report[..];
      AddInputReport(report);
    }

    /** Builds a keyboard report pressing one key: the report ID, the modifier bits and the usage code, every other byte zero. */
    method BuildKeyReport(modifier: JByte, keyCode: JByte) returns (report: array<JByte>)
      ensures fresh(report)
      ensures report[..] == KeyDownReport(modifier, keyCode)
    {
      report := new JByte[KeyboardReportLength](_ => 0);
      report[ReportIdIndex] := KeyboardReportId;
      report[ModifierIndex] := modifier;
      report[KeyIndex] := keyCode;
      assert report[..] == KeyDownReport(modifier, keyCode);
    }

    /** Sends one key-down report: the given modifier bits and usage code, every other byte zero. */
    method SendKeyDown(modifier: JByte, keyCode: JByte)
      modifies this`sent
      ensures sent == old(sent) + [KeyDownReport(modifier, keyCode)]
      ensures unchanged(lastSent)
    {
      var report := BuildKeyReport(modifier, keyCode);
      AddInputReport(report);
    }

    /** Sends the key-up report: no modifier and no key pressed. */
    method SendKeyUp()
      requires Valid()
      modifies this`sent, emptyReport
      ensures Valid()
      ensures emptyReport[..] == KeyUpReport
      ensures sent == old(sent) + [KeyUpReport]
      ensures unchanged(lastSent)
    {
      emptyReport[ReportIdIndex] := KeyboardReportId;
      assert emptyReport[..] == KeyUpReport;
      AddInputReport(emptyReport);
    }

    /**
     * Types `text`: one key-down report per character, a key-up report before
     * a character equal to the one before it, and a final key-up report. The
     * mouse cache is left alone.
     */
    method SendKeys(text: string)
      requires Valid()
      modifies this`sent, emptyReport
      ensures Valid()
      ensures sent == old(sent) + TypedReports(text)
      ensures emptyReport[..] == KeyUpReport
      ensures unchanged(lastSent)
    {
      var lastKey: Option<string> := None;
      var i := 0;
      while i < |text|
        invariant 0 <= i <= |text|
        invariant Valid()
        invariant sent == old(sent) + Reports(Presses(text[..i]))
        invariant lastKey == if i == 0 then None else Some(text[i - 1..i])
        invariant unchanged(lastSent)
      {
        var key := text[i..i + 1];
        var report := BuildKeyReport(Modifier(key), KeyCode(key));
        assert key == [text[i]];
        assert report[..] == CharReport(text[i]) by {
          assert Modifier(key) == Modifier([text[i]]) && KeyCode(key) == KeyCode([text[i]]);
        }
        ghost var repeated := i > 0 && text[i - 1] == text[i];
        assert lastKey == Some(key) <==> repeated by {
          if i > 0 {
            assert text[i - 1..i] == [text[i - 1]];
          }
        }
        if lastKey == Some(key) {
          SendKeyUp();
        }
        AddInputReport(report);
        SendStep(old(sent), text, i);
        lastKey := Some(key);
        i := i + 1;
      }
      assert text[..i] == text;
      SendKeyUp();
      ReportsAppend(Presses(text), [Release]);
    }
  }
}
