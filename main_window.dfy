/**
 * The main window (PortScanner/MainWindow.xaml.cs): the rules by which its
 * handlers turn the text of the input boxes into the task count, the
 * timeout and the connection count; the button states that follow the
 * `_scanning` flag; and the order in which DoScan checks its inputs before
 * it builds an executor.
 *
 * The WPF controls are fields of the class: the text of each input box,
 * the slider's value, the IsEnabled flag of each button and the
 * visibility of the save button.
 */
module MainWindows {
  import opened Wrappers
  import opened Exceptions
  import opened Text
  import IPRanges
  import Executors

  const MaxNumberOfTasks := 4001
  const MaxTimeOutDuration := 8000
  const MinTimeOutDuration := 100
  const DefaultTimeOutDuration := 5000
  /** The initial value of the MaxNumberOfConnections field. */
  const InitialNumberOfConnections := 5000
  const MaxNumberOfConnections := 20000
  const DefaultNumberOfConnections := 10000

  datatype Visibility = Visible | Hidden

  /* ------------------------------------------------------- the task count */

  /**
   * The count numberOfTaskInput_TextChanged stores for a text: the value
   * int.TryParse writes (0 when it fails), and 1 in place of a parsed value
   * outside 1..MaxNumberOfTasks - 1.
   */
  function TaskCount(text: string): (n: int)
    ensures 0 <= n < MaxNumberOfTasks
    ensures n == 0 <==> TryParseInt32(text).None?
    ensures TryParseInt32(text).Some? && 0 < TryParseInt32(text).value < MaxNumberOfTasks
            ==> n == TryParseInt32(text).value
  {
    match TryParseInt32(text)
    case None => 0
    case Some(v) => if v <= 0 || v >= MaxNumberOfTasks then 1 else v
  }

  /** The text the handler leaves in the box: cleared when it does not parse, else the count in decimal. */
  function TaskText(text: string): string {
    if TryParseInt32(text).None? then "" else IntToString(TaskCount(text))
  }

  /** An empty box does not parse. */
  lemma EmptyTextUnparsed()
    ensures TryParseInt32("").None?
  {
    assert TrimEnd(TrimStart("")) == "";
  }

  /**
   * The handler writes a text from which it would compute the same count
   * and the same text again: the TextChanged event its own assignment
   * raises changes nothing.
   */
  lemma {:induction false} TaskTextSettles(text: string)
    ensures TaskCount(TaskText(text)) == TaskCount(text)
    ensures TaskText(TaskText(text)) == TaskText(text)
  {
    if TryParseInt32(text).None? {
      EmptyTextUnparsed();
    } else {
      var n := TaskCount(text);
      ParseIntToString(n, MinInt32, MaxInt32);
    }
  }

  /**
   * The slider writes its value in decimal into the task box; the handler
   * then keeps a value of 1..MaxNumberOfTasks - 1 and resets any other to 1,
   * including the slider's own maximum MaxNumberOfTasks.
   */
  lemma {:induction false} SliderTextCount(v: int)
    requires MinInt32 <= v <= MaxInt32
    ensures TaskCount(IntToString(v)) == if 0 < v < MaxNumberOfTasks then v else 1
    ensures TaskText(IntToString(v)) == if 0 < v < MaxNumberOfTasks then IntToString(v) else "1"
  {
    ParseIntToString(v, MinInt32, MaxInt32);
    if !(0 < v < MaxNumberOfTasks) {
      assert IntToString(1) == "1";
    }
  }

  /* ------------------------------------------------ timeout and connections */

  /** What a validator makes of its box: whether it accepts, the value it stores, and whether it clears the box. */
  datatype Check = Check(accepted: bool, value: int, cleared: bool)

  /**
   * ValidateTimeOutInput and ValidateNumberOfConnectionInput share one
   * rule: an unparseable text stores 0, clears the box and is refused; a
   * parsed value outside [min, max] is replaced by `reset` and refused; any
   * other is stored and accepted.
   */
  function RangeCheck(text: string, min: int, max: int, reset: int): (c: Check)
    ensures c.accepted <==> TryParseInt32(text).Some? && min <= TryParseInt32(text).value <= max
    ensures c.accepted ==> c.value == TryParseInt32(text).value
    ensures c.cleared <==> TryParseInt32(text).None?
  {
    match TryParseInt32(text)
    case None => Check(false, 0, true)
    case Some(v) => if v < min || v > max then Check(false, reset, false) else Check(true, v, false)
  }

  function TimeoutCheck(text: string): Check {
    RangeCheck(text, MinTimeOutDuration, MaxTimeOutDuration, DefaultTimeOutDuration)
  }

  function ConnectionCheck(text: string): Check {
    RangeCheck(text, 0, MaxNumberOfConnections, DefaultNumberOfConnections)
  }

  /**
   * A value written in decimal into a validator's box is accepted exactly
   * when it lies in [min, max] and is then stored as it is; any other Int32
   * stores the reset value and leaves the box as it was.
   */
  lemma {:induction false} RangeCheckOfDecimal(v: int, min: int, max: int, reset: int)
    requires MinInt32 <= v <= MaxInt32
    ensures RangeCheck(IntToString(v), min, max, reset)
      == if min <= v <= max then Check(true, v, false) else Check(false, reset, false)
  {
    ParseIntToString(v, MinInt32, MaxInt32);
  }

  /** The timeout text the constructor writes passes ValidateTimeOutInput. */
  lemma DefaultTimeoutAccepted()
    ensures TimeoutCheck(IntToString(DefaultTimeOutDuration)) == Check(true, DefaultTimeOutDuration, false)
  {
    RangeCheckOfDecimal(DefaultTimeOutDuration, MinTimeOutDuration, MaxTimeOutDuration, DefaultTimeOutDuration);
  }

  /* ------------------------------------------------------------ DoScan */

  /** The box whose check made DoScan call OnInputError and return. */
  datatype InputField = IPRangeField | TimeoutField | ConnectionField

  /** How DoScan ends before its first await. */
  datatype ScanStart =
    | InputRejected(field: InputField) // OnInputError ran and DoScan returned
    | Thrown(fault: Exception)         // an exception left DoScan
    | Started                          // the executor holds the scan's tasks

  /**
   * The exceptions of `new IPRange` that DoScan catches: ArgumentNullException
   * and every ArgumentException, including an ArgumentOutOfRangeException.
   */
  predicate Caught(e: IPRanges.RangeError) {
    e.ArgumentNull? || e.ArgumentInvalid? || e.fault == ArgumentOutOfRangeException
  }

  /**
   * DoScan's checks in their order: the range text, then the timeout text,
   * then the connection text. The first to fail decides; a parser
   * exception that is not caught leaves DoScan.
   */
  function Gate(ipText: string, timeoutText: string, connectionText: string): (r: Result<IPRanges.Box, ScanStart>)
    ensures r.Success? ==> && IPRanges.ParseIPRange(Some(ipText)) == Success(r.value)
                           && TimeoutCheck(timeoutText).accepted && ConnectionCheck(connectionText).accepted
    ensures r.Failure? ==> !r.error.Started?
  {
    match IPRanges.ParseIPRange(Some(ipText))
    case Failure(e) =>
      if Caught(e) then Failure(InputRejected(IPRangeField)) else Failure(Thrown(e.fault))
    case Success(box) =>
      if !TimeoutCheck(timeoutText).accepted then Failure(InputRejected(TimeoutField))
      else if !ConnectionCheck(connectionText).accepted then Failure(InputRejected(ConnectionField))
      else Success(box)
  }

  /**
   * The stored timeout and the timeout box once DoScan's checks have run:
   * ValidateTimeOutInput's result when the range parses, else `duration`
   * and the box as they were.
   */
  function TimeoutAfter(ipText: string, timeoutText: string, duration: int): (int, string) {
    if IPRanges.ParseIPRange(Some(ipText)).Success? then
      (TimeoutCheck(timeoutText).value, if TimeoutCheck(timeoutText).cleared then "" else timeoutText)
    else
      (duration, timeoutText)
  }

  /**
   * The stored connection count and the connection box once DoScan's checks
   * have run: ValidateNumberOfConnectionInput's result when the range parses
   * and the timeout is accepted, else `connections` and the box as they were.
   */
  function ConnectionAfter(ipText: string, timeoutText: string, connectionText: string, connections: int): (int, string) {
    if IPRanges.ParseIPRange(Some(ipText)).Success? && TimeoutCheck(timeoutText).accepted then
      (ConnectionCheck(connectionText).value, if ConnectionCheck(connectionText).cleared then "" else connectionText)
    else
      (connections, connectionText)
  }

  /**
   * A range that passes the checks is a pair of four-octet bounds, and the
   * timeout and connection count it is scanned with are those of the boxes.
   */
  lemma GatePasses(ipText: string, timeoutText: string, connectionText: string)
    requires Gate(ipText, timeoutText, connectionText).Success?
    ensures |Gate(ipText, timeoutText, connectionText).value.begin| == 4
    ensures MinTimeOutDuration <= TimeoutCheck(timeoutText).value <= MaxTimeOutDuration
    ensures 0 <= ConnectionCheck(connectionText).value <= MaxNumberOfConnections
  {
  }

  /**
   * MainWindow: the fields the handlers write and the state of the controls
   * they read and set.
   */
  class MainWindow {
    var numberOfTasks: int
    var timeOutDuration: int
    var maxNumberOfConnections: int
    var scanning: bool
    var scannerExecutor: Executors.ScannerExecutor?

    var numberOfTaskText: string   // numberOfTaskInput.Text
    var sliderValue: int           // (int) numberOfTaskSlider.Value
    var ipRangeText: string        // IPRangeInput.Text
    var timeoutText: string        // timeoutInput.Text
    var connectionText: string     // numberOfConnectionInput.Text
    var scanEnabled: bool
    var stopEnabled: bool
    var clearEnabled: bool
    var saveVisibility: Visibility

    /** The task count is one TaskCount can give: 0 before any valid text, else 1..MaxNumberOfTasks - 1. */
    predicate Valid()
      reads this
    {
      0 <= numberOfTasks < MaxNumberOfTasks
    }

    /**
     * The constructor: stop and clear disabled, the timeout set to its
     * default and written into its box; the other controls keep the WPF
     * defaults (empty text, enabled, visible).
     */
    constructor ()
      ensures Valid() && numberOfTasks == 0 && !scanning && scannerExecutor == null
      ensures timeOutDuration == DefaultTimeOutDuration && timeoutText == IntToString(DefaultTimeOutDuration)
      ensures maxNumberOfConnections == InitialNumberOfConnections
      ensures scanEnabled && !stopEnabled && !clearEnabled && saveVisibility == Visible
    {
      numberOfTasks := 0;
      maxNumberOfConnections := InitialNumberOfConnections;
      scanning := false;
      scannerExecutor := null;
      numberOfTaskText, sliderValue, ipRangeText, connectionText := "", 0, "", "";
      scanEnabled, saveVisibility := true, Visible;
      stopEnabled := false;
      clearEnabled := false;
      timeOutDuration := DefaultTimeOutDuration;
      timeoutText := IntToString(DefaultTimeOutDuration);
    }

    /**
     * numberOfTaskInput_TextChanged: stores TaskCount of the box's text;
     * an unparseable text is cleared, otherwise the count is written back
     * into the box and onto the slider.
     */
    method NumberOfTaskInputTextChanged()
      modifies this`numberOfTasks, this`numberOfTaskText, this`sliderValue
      ensures Valid()
      ensures numberOfTasks == TaskCount(old(numberOfTaskText))
      ensures numberOfTaskText == TaskText(old(numberOfTaskText))
      ensures sliderValue == if TryParseInt32(old(numberOfTaskText)).None? then old(sliderValue) else numberOfTasks
    {
      var parsed := TryParseInt32(numberOfTaskText);
      if parsed.None? {
        numberOfTasks := 0;
        numberOfTaskText := "";
      } else {
        numberOfTasks := parsed.value;
        if numberOfTasks <= 0 || numberOfTasks >= MaxNumberOfTasks {
          numberOfTasks := 1;
        }
        numberOfTaskText := IntToString(numberOfTasks);
        sliderValue := numberOfTasks;
      }
    }

    /** numberOfTaskSlider_ValueChanged: the slider's value in decimal becomes the task box's text. */
    method NumberOfTaskSliderValueChanged()
      modifies this`numberOfTaskText
      ensures numberOfTaskText == IntToString(sliderValue)
    {
      numberOfTaskText := IntToString(sliderValue);
    }

    /** UpdateButtons: scan and clear enabled and stop disabled exactly when not scanning; save visible exactly when scanning. */
    method UpdateButtons()
      modifies this`scanEnabled, this`stopEnabled, this`clearEnabled, this`saveVisibility
      ensures scanEnabled == !scanning && stopEnabled == scanning && clearEnabled == !scanning
      ensures saveVisibility == (if scanning then Visible else Hidden)
    {
      scanEnabled := !scanning;
      stopEnabled := scanning;
      clearEnabled := !scanning;
      saveVisibility := if scanning then Visible else Hidden;
    }

    /**
     * clearButton_Click: the slider back to 1 and the range, connection and
     * timeout boxes emptied. Moving the slider raises ValueChanged, whose
     * handler writes "1" into the task box; a changed box raises
     * TextChanged, whose handler sets the task count to 1. The handler's own
     * writes then change neither control, so no further event is raised.
     */
    method ClearButtonClick()
      modifies this`sliderValue, this`ipRangeText, this`connectionText, this`timeoutText
      modifies this`numberOfTaskText, this`numberOfTasks
      ensures sliderValue == 1 && ipRangeText == "" && connectionText == "" && timeoutText == ""
      ensures old(sliderValue) != 1 ==> numberOfTaskText == "1"
      ensures old(sliderValue) != 1 && old(numberOfTaskText) != "1" ==> numberOfTasks == 1
      ensures old(sliderValue) == 1 ==> numberOfTaskText == old(numberOfTaskText)
      ensures old(sliderValue) == 1 || old(numberOfTaskText) == "1" ==> numberOfTasks == old(numberOfTasks)
    {
      var moved := sliderValue != 1;
      sliderValue := 1;
      if moved {
        var text := numberOfTaskText;
        NumberOfTaskSliderValueChanged();
        assert IntToString(1) == "1";
        if numberOfTaskText != text {
          SliderTextCount(1);
          NumberOfTaskInputTextChanged();
        }
      }
      ipRangeText := "";
      connectionText := "";
      timeoutText := "";
    }

    /** OnInputError: scanning stops and the buttons follow. */
    method OnInputError()
      modifies this`scanning, this`scanEnabled, this`stopEnabled, this`clearEnabled, this`saveVisibility
      ensures !scanning && scanEnabled && !stopEnabled && clearEnabled && saveVisibility == Hidden
    {
      scanning := false;
      UpdateButtons();
    }

    /** ValidateTimeOutInput: TimeoutCheck of the box decides the answer, the stored timeout and whether the box is cleared. */
    method ValidateTimeOutInput() returns (ok: bool)
      modifies this`timeOutDuration, this`timeoutText
      ensures ok == TimeoutCheck(old(timeoutText)).accepted
      ensures timeOutDuration == TimeoutCheck(old(timeoutText)).value
      ensures timeoutText == if TimeoutCheck(old(timeoutText)).cleared then "" else old(timeoutText)
    {
      var parsed := TryParseInt32(timeoutText);
      if parsed.None? {
        timeOutDuration := 0;
        timeoutText := "";
      } else {
        timeOutDuration := parsed.value;
        if timeOutDuration < MinTimeOutDuration || timeOutDuration > MaxTimeOutDuration {
          timeOutDuration := DefaultTimeOutDuration;
        } else {
          return true;
        }
      }
      return false;
    }

    /** ValidateNumberOfConnectionInput: ConnectionCheck of the box decides the answer, the stored count and whether the box is cleared. */
    method ValidateNumberOfConnectionInput() returns (ok: bool)
      modifies this`maxNumberOfConnections, this`connectionText
      ensures ok == ConnectionCheck(old(connectionText)).accepted
      ensures maxNumberOfConnections == ConnectionCheck(old(connectionText)).value
      ensures connectionText == if ConnectionCheck(old(connectionText)).cleared then "" else old(connectionText)
    {
      var parsed := TryParseInt32(connectionText);
      if parsed.None? {
        maxNumberOfConnections := 0;
        connectionText := "";
      } else {
        maxNumberOfConnections := parsed.value;
        if maxNumberOfConnections < 0 || maxNumberOfConnections > MaxNumberOfConnections {
          maxNumberOfConnections := DefaultNumberOfConnections;
        } else {
          return true;
        }
      }
      return false;
    }

    /**
     * What DoScan leaves once its checks pass with the bounds `box`:
     * scanning, the buttons following, and either the exception that left
     * (GetAllIP's, or BuildExecutor's when Plan fails) or an executor with
     * the current task count running Plan's jobs.
     */
    ghost predicate Launched(box: IPRanges.Box, quickScan: bool, outcome: ScanStart)
      requires |box.begin| == 4 && |box.end| == 4
      reads this, scannerExecutor
    {
      && scanning && !scanEnabled && stopEnabled && !clearEnabled && saveVisibility == Visible
      && match IPRanges.AllIP(box.begin, box.end)
         case Failure(e) => outcome == Thrown(e)
         case Success(addresses) =>
           && scannerExecutor != null
           && scannerExecutor.numberOfTasks == numberOfTasks && !scannerExecutor.cancelled
           && match Executors.Plan(addresses, numberOfTasks, quickScan)
              case Failure(e) => outcome == Thrown(e) && scannerExecutor.runningTasks == []
              case Success(jobs) => outcome == Started && scannerExecutor.runningTasks == Executors.Started(jobs)
    }

    /**
     * DoScan's checks (PortScanner/MainWindow.xaml.cs, the range, then the
     * timeout, then the connection count): Gate decides the result. A
     * rejected box runs OnInputError; a later box is not read once an
     * earlier one fails; an exception that is not caught leaves the
     * buttons as they were.
     */
    method CheckInputs() returns (checked: Result<IPRanges.IPRange, ScanStart>)
      modifies this`timeOutDuration, this`timeoutText, this`maxNumberOfConnections, this`connectionText
      modifies this`scanning, this`scanEnabled, this`stopEnabled, this`clearEnabled, this`saveVisibility
      ensures checked.Failure? <==> Gate(old(ipRangeText), old(timeoutText), old(connectionText)).Failure?
      ensures checked.Failure? ==> checked.error == Gate(old(ipRangeText), old(timeoutText), old(connectionText)).error
      ensures checked.Success? ==>
                && fresh(checked.value) && checked.value.Valid()
                && checked.value.Bounds() == Gate(old(ipRangeText), old(timeoutText), old(connectionText)).value
      ensures checked.Failure? && checked.error.InputRejected? ==>
                !scanning && scanEnabled && !stopEnabled && clearEnabled && saveVisibility == Hidden
      ensures !(checked.Failure? && checked.error.InputRejected?) ==>
                && scanning == old(scanning) && scanEnabled == old(scanEnabled) && stopEnabled == old(stopEnabled)
                && clearEnabled == old(clearEnabled) && saveVisibility == old(saveVisibility)
      ensures (timeOutDuration, timeoutText) == TimeoutAfter(old(ipRangeText), old(timeoutText), old(timeOutDuration))
      ensures (maxNumberOfConnections, connectionText)
           == ConnectionAfter(old(ipRangeText), old(timeoutText), old(connectionText), old(maxNumberOfConnections))
    {
      var created := IPRanges.IPRange.Create(Some(ipRangeText));
      if created.Failure? {
        if Caught(created.error) {
          OnInputError();
          return Failure(InputRejected(IPRangeField));
        }
        return Failure(Thrown(created.error.fault));
      }
      var timeoutOk := ValidateTimeOutInput();
      if !timeoutOk {
        OnInputError();
        return Failure(InputRejected(TimeoutField));
      }
      var connectionsOk := ValidateNumberOfConnectionInput();
      if !connectionsOk {
        OnInputError();
        return Failure(InputRejected(ConnectionField));
      }
      return Success(created.value);
    }

    /**
     * DoScan once its checks have passed: scanning is set and the buttons
     * follow, GetAllIP lists the addresses, and a new executor with the
     * current task count starts Plan's jobs.
     */
    method StartScan(ipRange: IPRanges.IPRange, ghost box: IPRanges.Box, quickScan: bool) returns (outcome: ScanStart)
      requires Valid() && ipRange.Valid() && ipRange.Bounds() == box
      modifies this`scanning, this`scanEnabled, this`stopEnabled, this`clearEnabled, this`saveVisibility
      modifies this`scannerExecutor
      ensures |box.begin| == 4 && |box.end| == 4 && Launched(box, quickScan, outcome)
      ensures IPRanges.AllIP(box.begin, box.end).Failure? ==> scannerExecutor == old(scannerExecutor)
      ensures IPRanges.AllIP(box.begin, box.end).Success? ==> fresh(scannerExecutor)
      ensures !outcome.InputRejected? && (numberOfTasks == 0 ==> !outcome.Started?)
      ensures timeOutDuration == old(timeOutDuration) && timeoutText == old(timeoutText)
      ensures maxNumberOfConnections == old(maxNumberOfConnections) && connectionText == old(connectionText)
    {
      scanning := true;
      UpdateButtons();
      var addresses := ipRange.GetAllIP();
      if addresses.Failure? {
        return Thrown(addresses.error);
      }
      var executor := new Executors.ScannerExecutor(numberOfTasks);
      scannerExecutor := executor;
      var thrown := executor.BuildExecutor(addresses.value, quickScan);
      if thrown.Some? {
        return Thrown(thrown.value);
      }
      stopEnabled := true;
      return Started;
    }

    /**
     * DoScan up to its first await: CheckInputs, then StartScan when Gate
     * passes. A rejection or an escaping parser exception leaves the
     * executor as it was, and the exception also leaves the buttons as they
     * were; the validators store what they read whenever DoScan reaches
     * them; a task count of 0 never starts a scan.
     */
    method DoScan(quickScan: bool) returns (outcome: ScanStart)
      requires Valid()
      modifies this`timeOutDuration, this`timeoutText, this`maxNumberOfConnections, this`connectionText
      modifies this`scanning, this`scanEnabled, this`stopEnabled, this`clearEnabled, this`saveVisibility
      modifies this`scannerExecutor
      ensures Gate(old(ipRangeText), old(timeoutText), old(connectionText)).Failure? ==>
                && outcome == Gate(old(ipRangeText), old(timeoutText), old(connectionText)).error
                && scannerExecutor == old(scannerExecutor)
      ensures outcome.InputRejected? ==>
                !scanning && scanEnabled && !stopEnabled && clearEnabled && saveVisibility == Hidden
      ensures outcome.Thrown? && Gate(old(ipRangeText), old(timeoutText), old(connectionText)).Failure? ==>
                && scanning == old(scanning) && scanEnabled == old(scanEnabled) && stopEnabled == old(stopEnabled)
                && clearEnabled == old(clearEnabled) && saveVisibility == old(saveVisibility)
      ensures Gate(old(ipRangeText), old(timeoutText), old(connectionText)).Success? ==>
                Launched(Gate(old(ipRangeText), old(timeoutText), old(connectionText)).value, quickScan, outcome)
      ensures numberOfTasks == 0 ==> !outcome.Started?
      ensures (timeOutDuration, timeoutText) == TimeoutAfter(old(ipRangeText), old(timeoutText), old(timeOutDuration))
      ensures (maxNumberOfConnections, connectionText)
           == ConnectionAfter(old(ipRangeText), old(timeoutText), old(connectionText), old(maxNumberOfConnections))
    {
      ghost var gate := Gate(ipRangeText, timeoutText, connectionText);
      var checked := CheckInputs();
      if checked.Failure? {
        return checked.error;
      }
      ghost var duration, timeout, connections, connection := timeOutDuration, timeoutText, maxNumberOfConnections, connectionText;
      outcome := StartScan(checked.value, gate.value, quickScan);
      assert timeOutDuration == duration && timeoutText == timeout;
      assert maxNumberOfConnections == connections && connectionText == connection;
    }

    /**
     * stopTasks: the executor's token is cancelled, scanning stops, and the
     * null entries are removed from its task list by GetRunningTasks. The
     * field is never checked for null: before the first scan that reaches
     * `new ScannerExecutor` the first call throws a NullReferenceException
     * and nothing changes. stopTasks is `async void`, so that exception does
     * not return to the caller; it is posted to the dispatcher and `thrown`
     * carries it there.
     */
    method StopTasks() returns (thrown: Option<Exception>)
      modifies this`scanning, scannerExecutor
      ensures old(scannerExecutor) == null ==> thrown == Some(NullReferenceException) && scanning == old(scanning)
      ensures old(scannerExecutor) != null ==>
                && thrown.None? && !scanning && scannerExecutor.cancelled
                && scannerExecutor.runningTasks == Executors.NonNull(old(scannerExecutor.runningTasks))
    {
      if scannerExecutor == null {
        return Some(NullReferenceException);
      }
      var executor := scannerExecutor;
      executor.StopAllTasks();
      scanning := false;
      var tasks := executor.GetRunningTasks();
      return None;
    }

    /**
     * stopButton_Click: stopTasks, then UpdateButtons. An exception of
     * stopTasks does not stop the handler, so the buttons always follow
     * `_scanning`: idle once an executor is stopped, unchanged in meaning
     * when there was none.
     */
    method StopButtonClick() returns (thrown: Option<Exception>)
      modifies this`scanning, this`scanEnabled, this`stopEnabled, this`clearEnabled, this`saveVisibility, scannerExecutor
      ensures old(scannerExecutor) == null ==> thrown == Some(NullReferenceException) && scanning == old(scanning)
      ensures old(scannerExecutor) != null ==>
                && thrown.None? && !scanning && scannerExecutor.cancelled
                && scannerExecutor.runningTasks == Executors.NonNull(old(scannerExecutor.runningTasks))
      ensures scanEnabled == !scanning && stopEnabled == scanning && clearEnabled == !scanning
      ensures saveVisibility == (if scanning then Visible else Hidden)
    {
      thrown := StopTasks();
      UpdateButtons();
    }

    /**
     * saveButton_Click: stopTasks, then the awaited report write, then
     * UpdateButtons. The file system is the parameter writeFails: when the
     * write throws (the "MM/dd/yyyy" in the file name holds the culture's
     * date separator, which is '/' under en-US and names directories that do
     * not exist), the exception leaves the async void handler as writeError
     * and UpdateButtons never runs.
     */
    method SaveButtonClick(writeFails: bool) returns (thrown: Option<Exception>, writeError: Option<Exception>)
      modifies this`scanning, this`scanEnabled, this`stopEnabled, this`clearEnabled, this`saveVisibility, scannerExecutor
      ensures old(scannerExecutor) == null ==> thrown == Some(NullReferenceException) && scanning == old(scanning)
      ensures old(scannerExecutor) != null ==>
                && thrown.None? && !scanning && scannerExecutor.cancelled
                && scannerExecutor.runningTasks == Executors.NonNull(old(scannerExecutor.runningTasks))
      ensures writeError == (if writeFails then Some(IOException) else None)
      ensures !writeFails ==> scanEnabled == !scanning && stopEnabled == scanning && clearEnabled == !scanning
      ensures !writeFails ==> saveVisibility == (if scanning then Visible else Hidden)
      ensures writeFails ==> unchanged(this`scanEnabled, this`stopEnabled, this`clearEnabled, this`saveVisibility)
    {
      thrown := StopTasks();
      if writeFails {
        writeError := Some(IOException);
        return;
      }
      writeError := None;
      UpdateButtons();
    }

    /**
     * The rest of DoScan once the tasks are awaited: scanning stops and the
     * buttons follow; the report is written unless awaiting the tasks
     * reported a cancellation. The task list was already cleaned by the
     * GetRunningTasks call that DoScan makes before the await, so the
     * executor is left as it is.
     */
    method ScanFinished(isCancelled: bool) returns (writeReport: bool)
      modifies this`scanning, this`scanEnabled, this`stopEnabled, this`clearEnabled, this`saveVisibility
      ensures writeReport == !isCancelled
      ensures !scanning && scanEnabled && !stopEnabled && clearEnabled && saveVisibility == Hidden
      ensures scannerExecutor == old(scannerExecutor)
      ensures scannerExecutor != null ==> unchanged(scannerExecutor)
    {
      scanning := false;
      UpdateButtons();
      writeReport := !isCancelled;
    }
  }

  /**
   * A new window shows the save button, and a click on it before any scan
   * has built an executor throws a NullReferenceException.
   */
  method SaveBeforeAnyScan() returns (visible: bool, thrown: Option<Exception>)
    ensures visible && thrown == Some(NullReferenceException)
  {
    var window := new MainWindow();
    visible := window.saveVisibility == Visible;
    var writeError;
    thrown, writeError := window.SaveButtonClick(false);
  }

  /**
   * Typing 50 into the task box sets the task count to 50; Clear then sets
   * it back to 1 through the slider's ValueChanged and the box's TextChanged.
   */
  method ClearResetsTaskCount() returns (typed: int, cleared: int)
    ensures typed == 50 && cleared == 1
  {
    var window := new MainWindow();
    window.numberOfTaskText := "50";
    assert IntToString(50) == "50";
    ParseIntToString(50, MinInt32, MaxInt32);
    window.NumberOfTaskInputTextChanged();
    typed := window.numberOfTasks;
    window.ClearButtonClick();
    cleared := window.numberOfTasks;
  }
}
