/** BaseSelectionInputMonitor: the automaton that recognises drags, double and triple
    clicks, optionally confirmed by a tap of the ctrl key. */
module Gesture {

  const DOUBLE_CLICK_TIME := 550
  const TRIPLE_CLICK_TIME := 300
  const MAX_POSITION_CHANGE_OFFSET := 10

  datatype InputState = Initial | WordBegin | WaitLeftMove | WaitDoubleClick | WaitTripleClick | WordEnd | Done
  datatype SubState = SubInitial | WaitButtonDown | WaitButtonUp | WaitCtrlDown | WaitCtrlUp | WaitButtonOrCtrlDown
  datatype SelectionType = NoSelection | MoveSelection | DoubleClicked | TripleClicked

  datatype Point = Point(x: int, y: int)

  /** The parts of SelectionInfo that the gesture decides. */
  datatype Info = Info(start: Point, end: Point, selectionType: SelectionType)

  datatype Button = LeftButton | NoButton | OtherButton
  datatype PointerAction = ButtonDown | ButtonUp | Move | EnterWindow | LeaveWindow | OtherAction
  datatype KeyAction = KeyDown | KeyUp | OtherKeyAction

  /** One input event, with the clock and the ctrl-trigger setting read while handling it. */
  datatype Event =
    | Pointer(button: Button, action: PointerAction, at: Point, now: int, ctrlTrigger: bool)
    | Key(isCtrl: bool, keyAction: KeyAction, isRepeat: bool)
    | Axis

  datatype State = State(cur: InputState, sub: SubState, lastClick: int, info: Info, seqId: nat)

  const START := State(Initial, SubInitial, 0, Info(Point(0, 0), Point(0, 0), NoSelection), 0)

  // ----- one event as a function of the state

  function Reset(s: State): State { s.(cur := Initial, sub := SubInitial) }

  function Finish(s: State): State {
    if s.cur == Done then s.(seqId := (s.seqId + 1) % 0x1_0000_0000) else s
  }

  function OnKey(s: State, e: Event): State
    requires e.Key?
  {
    if s.cur == Done then
      if s.sub != SubInitial then s.(cur := WordEnd) else Reset(s)
    else if s.sub != WaitCtrlDown && s.sub != WaitCtrlUp && s.sub != WaitButtonOrCtrlDown then s
    else if !e.isCtrl then Reset(s)
    else if e.keyAction == KeyDown && e.isRepeat then s
    else if s.sub != WaitCtrlUp && e.keyAction == KeyDown then s.(sub := WaitCtrlUp)
    else if s.sub == WaitCtrlUp && e.keyAction == KeyUp then
      Finish(s.(cur := if s.cur == WordEnd then Done else s.cur, sub := SubInitial))
    else if e.keyAction == KeyUp && e.isRepeat then s
    else Reset(s)
  }

  function Abs(v: int): nat { if v < 0 then -v else v }

  predicate IsTinyMovement(s: State, e: Event)
    requires e.Pointer?
  {
    && Abs(s.info.start.x - e.at.x) <= MAX_POSITION_CHANGE_OFFSET
    && Abs(s.info.start.y - e.at.y) <= MAX_POSITION_CHANGE_OFFSET
  }

  /** A move without button: the new state, and whether the event is used up. */
  function Movement(s: State, e: Event): (State, bool)
    requires e.Pointer?
  {
    if s.sub == WaitButtonDown && IsTinyMovement(s, e) then
      (if s.cur == Done then s.(cur := WaitTripleClick) else s, true)
    else if s.sub == WaitCtrlDown || s.sub == WaitCtrlUp then (s, true)
    else if s.sub == WaitButtonOrCtrlDown then (s.(sub := WaitCtrlDown), true)
    else (s, false)
  }

  function TypeOf(cur: InputState, otherwise: SelectionType): SelectionType {
    match cur
    case WaitLeftMove => MoveSelection
    case WaitDoubleClick => DoubleClicked
    case WaitTripleClick => TripleClicked
    case _ => otherwise
  }

  function WordSelection(s: State, e: Event): State
    requires e.Pointer?
  {
    var info := s.info.(end := e.at, selectionType := TypeOf(s.cur, s.info.selectionType));
    var isDouble := s.cur == WaitDoubleClick;
    if e.ctrlTrigger then
      s.(cur := WordEnd, sub := if isDouble then WaitButtonOrCtrlDown else WaitCtrlDown, info := info)
    else
      s.(cur := Done, sub := if isDouble then WaitButtonDown else SubInitial, info := info)
  }

  function InitialProcess(s: State, e: Event): State
    requires e.Pointer?
  {
    if e.action == ButtonDown && e.button == LeftButton
    then s.(cur := WordBegin, sub := SubInitial, lastClick := e.now, info := s.info.(start := e.at, end := e.at))
    else s
  }

  /** ResetProcess: back to the initial state, where the same event is handled again. */
  function Restart(s: State, e: Event): State
    requires e.Pointer?
  {
    InitialProcess(Reset(s), e)
  }

  function WordBeginProcess(s: State, e: Event): State
    requires e.Pointer?
  {
    match e.action
    case Move => s.(cur := WaitLeftMove, sub := WaitButtonUp)
    case ButtonUp => s.(cur := WaitDoubleClick, sub := WaitButtonDown)
    case _ => s
  }

  function LeftMoveProcess(s: State, e: Event): State
    requires e.Pointer?
  {
    match e.action
    case ButtonUp => WordSelection(s, e)
    case Move => s
    case _ => Restart(s, e)
  }

  /** A further press: too late starts over, in time continues with `s'`. */
  function Click(s: State, e: Event, limit: int, next: State): State
    requires e.Pointer?
  {
    if e.now - s.lastClick > limit then Restart(s.(lastClick := e.now), e) else next.(lastClick := e.now)
  }

  function JudgeTripleClick(s: State, e: Event): State
    requires e.Pointer?
  {
    Click(s, e, TRIPLE_CLICK_TIME, s.(cur := WaitTripleClick, sub := WaitButtonUp))
  }

  function DoubleClickProcess(s: State, e: Event): State
    requires e.Pointer?
  {
    if s.sub == WaitButtonDown && e.action == ButtonDown then
      Click(s, e, DOUBLE_CLICK_TIME, s.(sub := WaitButtonUp))
    else if s.sub == WaitButtonUp then
      (match e.action
       case ButtonUp => WordSelection(s, e)
       case Move => s.(cur := WaitLeftMove)
       case _ => s)
    else if s.sub == WaitButtonOrCtrlDown && e.action == ButtonDown then JudgeTripleClick(s, e)
    else s
  }

  function WordEndProcess(s: State, e: Event): State
    requires e.Pointer?
  {
    if e.action != ButtonDown then Reset(s)
    else if s.sub != WaitButtonDown && s.sub != WaitButtonOrCtrlDown then Restart(s, e)
    else JudgeTripleClick(s, e)
  }

  function TripleClickProcess(s: State, e: Event): State
    requires e.Pointer?
  {
    match e.action
    case ButtonDown => Click(s, e, TRIPLE_CLICK_TIME, s.(sub := WaitButtonUp))
    case ButtonUp => WordSelection(s, e)
    case Move => s.(cur := WaitLeftMove)
    case _ => Restart(s, e)
  }

  function Dispatch(s: State, e: Event): State
    requires e.Pointer?
  {
    match s.cur
    case Initial => InitialProcess(s, e)
    case WordBegin => WordBeginProcess(s, e)
    case WaitLeftMove => LeftMoveProcess(s, e)
    case WaitDoubleClick => DoubleClickProcess(s, e)
    case WordEnd => WordEndProcess(s, e)
    case Done => WordEndProcess(s, e)
    case WaitTripleClick => TripleClickProcess(s, e)
  }

  function OnPointer(s: State, e: Event): State
    requires e.Pointer?
  {
    if e.action == EnterWindow || e.action == LeaveWindow then s
    else if e.button == NoButton && e.action == Move && Movement(s, e).1 then Movement(s, e).0
    else if e.button != LeftButton then Reset(s)
    else Finish(Dispatch(s, e))
  }

  function Step(s: State, e: Event): State {
    match e
    case Pointer(_, _, _, _, _) => OnPointer(s, e)
    case Key(_, _, _) => OnKey(s, e)
    case Axis => s
  }

  // ----- the monitor itself

  class BaseSelectionInputMonitor {
    var curSelectState: InputState
    var subSelectState: SubState
    var lastClickTime: int
    var selectionInfo: Info
    var selSeqId: nat

    function View(): State
      reads this
    {
      State(curSelectState, subSelectState, lastClickTime, selectionInfo, selSeqId)
    }

    constructor ()
      ensures View() == START
    {
      curSelectState, subSelectState, lastClickTime := Initial, SubInitial, 0;
      selectionInfo, selSeqId := START.info, 0;
    }

    method OnInputEvent(e: Event)
      modifies this
      ensures View() == Step(old(View()), e)
    {
      match e
      case Pointer(_, _, _, _, _) => ProcessPointerEvent(e);
      case Key(_, _, _) => ProcessKeyEvent(e);
      case Axis =>
    }

    method ResetState()
      modifies this
      ensures View() == Reset(old(View()))
    {
      curSelectState, subSelectState := Initial, SubInitial;
    }

    method FinishedWordSelection()
      modifies this
      ensures View() == Finish(old(View()))
    {
      if curSelectState != Done {
        return;
      }
      selSeqId := (selSeqId + 1) % 0x1_0000_0000;
    }

    method ProcessKeyEvent(e: Event)
      requires e.Key?
      modifies this
      ensures View() == OnKey(old(View()), e)
    {
      if curSelectState == Done {
        if subSelectState != SubInitial {
          curSelectState := WordEnd;
          return;
        }
        ResetState();
        return;
      }
      if subSelectState != WaitCtrlDown && subSelectState != WaitCtrlUp && subSelectState != WaitButtonOrCtrlDown {
        return;
      }
      if !e.isCtrl {
        ResetState();
        return;
      }
      if e.keyAction == KeyDown && e.isRepeat {
        return;
      }
      if (subSelectState == WaitCtrlDown || subSelectState == WaitButtonOrCtrlDown) && e.keyAction == KeyDown {
        subSelectState := WaitCtrlUp;
        return;
      }
      if subSelectState == WaitCtrlUp && e.keyAction == KeyUp {
        if curSelectState == WordEnd {
          curSelectState := Done;
        }
        subSelectState := SubInitial;
      } else {
        if e.keyAction == KeyUp && e.isRepeat {
          return;
        }
        curSelectState, subSelectState := Initial, SubInitial;
      }
      FinishedWordSelection();
    }

    /** The re-dispatch of ResetProcess lands in the initial state, which never resets:
        the measure allows one nested call and no more. */
    method ProcessPointerEvent(e: Event)
      requires e.Pointer?
      modifies this
      ensures View() == OnPointer(old(View()), e)
      decreases if curSelectState == Initial then 0 else 1, 4
    {
      if e.action == EnterWindow || e.action == LeaveWindow {
        return;
      }
      if e.button == NoButton && e.action == Move {
        var consumed := ProcessMovement(e);
        if consumed {
          return;
        }
      }
      if e.button != LeftButton {
        ResetState();
        return;
      }
      DispatchOnState(e);
      FinishedWordSelection();
    }

    /** The switch over the main state. */
    method DispatchOnState(e: Event)
      requires e.Pointer? && e.button == LeftButton && e.action != EnterWindow && e.action != LeaveWindow
      modifies this
      ensures View() == Dispatch(old(View()), e)
      decreases if curSelectState == Initial then 0 else 1, 3
    {
      match curSelectState
      case Initial => InputInitialProcess(e);
      case WordBegin => InputWordBeginProcess(e);
      case WaitLeftMove => InputWordLeftMoveProcess(e);
      case WaitDoubleClick => InputWordDoubleClickProcess(e);
      case WordEnd => InputWordEndProcess(e);
      case Done => InputWordEndProcess(e);
      case WaitTripleClick => InputWordTripleClickProcess(e);
    }

    method ProcessMovement(e: Event) returns (consumed: bool)
      requires e.Pointer?
      modifies this
      ensures (View(), consumed) == Movement(old(View()), e)
    {
      if subSelectState == WaitButtonDown {
        if IsTinyMovement(View(), e) {
          if curSelectState == Done {
            curSelectState := WaitTripleClick;
          }
          return true;
        }
      }
      if subSelectState == WaitCtrlDown || subSelectState == WaitCtrlUp {
        return true;
      }
      if subSelectState == WaitButtonOrCtrlDown {
        subSelectState := WaitCtrlDown;
        return true;
      }
      return false;
    }

    method IsClickTimeout(now: int, limit: int) returns (timeout: bool)
      modifies this
      ensures View() == old(View()).(lastClick := now)
      ensures timeout == (now - old(lastClickTime) > limit)
    {
      var duration := now - lastClickTime;
      lastClickTime := now;
      return duration > limit;
    }

    method ResetProcess(e: Event)
      requires e.Pointer? && e.button == LeftButton && e.action != EnterWindow && e.action != LeaveWindow
      modifies this
      ensures View() == Restart(old(View()), e)
      decreases 1, 0
    {
      curSelectState, subSelectState := Initial, SubInitial;
      ProcessPointerEvent(e);
    }

    method InputInitialProcess(e: Event)
      requires e.Pointer?
      modifies this
      ensures View() == InitialProcess(old(View()), e)
    {
      if e.action == ButtonDown && e.button == LeftButton {
        curSelectState, subSelectState := WordBegin, SubInitial;
        lastClickTime := e.now;
        selectionInfo := selectionInfo.(start := e.at, end := e.at);
      }
    }

    method InputWordBeginProcess(e: Event)
      requires e.Pointer?
      modifies this
      ensures View() == WordBeginProcess(old(View()), e)
    {
      if e.action == Move {
        curSelectState, subSelectState := WaitLeftMove, WaitButtonUp;
      } else if e.action == ButtonUp {
        curSelectState, subSelectState := WaitDoubleClick, WaitButtonDown;
      }
    }

    method ProcessWordSelection(e: Event)
      requires e.Pointer?
      modifies this
      ensures View() == WordSelection(old(View()), e)
    {
      selectionInfo :=
        selectionInfo.(end := e.at, selectionType := TypeOf(curSelectState, selectionInfo.selectionType));
      if e.ctrlTrigger {
        subSelectState := if curSelectState == WaitDoubleClick then WaitButtonOrCtrlDown else WaitCtrlDown;
        curSelectState := WordEnd;
      } else {
        subSelectState := if curSelectState == WaitDoubleClick then WaitButtonDown else SubInitial;
        curSelectState := Done;
      }
    }

    method InputWordLeftMoveProcess(e: Event)
      requires e.Pointer? && e.button == LeftButton && e.action != EnterWindow && e.action != LeaveWindow
      modifies this
      ensures View() == LeftMoveProcess(old(View()), e)
      decreases 1, 1
    {
      if e.action == ButtonUp {
        ProcessWordSelection(e);
      } else if e.action != Move {
        ResetProcess(e);
      }
    }

    method JudgeTriple(e: Event)
      requires e.Pointer? && e.button == LeftButton && e.action != EnterWindow && e.action != LeaveWindow
      modifies this
      ensures View() == JudgeTripleClick(old(View()), e)
      decreases 1, 1
    {
      var timeout := IsClickTimeout(e.now, TRIPLE_CLICK_TIME);
      if timeout {
        ResetProcess(e);
        return;
      }
      curSelectState, subSelectState := WaitTripleClick, WaitButtonUp;
    }

    method InputWordDoubleClickProcess(e: Event)
      requires e.Pointer? && e.button == LeftButton && e.action != EnterWindow && e.action != LeaveWindow
      modifies this
      ensures View() == DoubleClickProcess(old(View()), e)
      decreases 1, 2
    {
      if subSelectState == WaitButtonDown && e.action == ButtonDown {
        var timeout := IsClickTimeout(e.now, DOUBLE_CLICK_TIME);
        if timeout {
          ResetProcess(e);
          return;
        }
        subSelectState := WaitButtonUp;
        return;
      }
      if subSelectState == WaitButtonUp {
        if e.action == ButtonUp {
          ProcessWordSelection(e);
        } else if e.action == Move {
          curSelectState := WaitLeftMove;
        }
        return;
      }
      if subSelectState == WaitButtonOrCtrlDown && e.action == ButtonDown {
        JudgeTriple(e);
      }
    }

    method InputWordEndProcess(e: Event)
      requires e.Pointer? && e.button == LeftButton && e.action != EnterWindow && e.action != LeaveWindow
      modifies this
      ensures View() == WordEndProcess(old(View()), e)
      decreases 1, 2
    {
      if e.action != ButtonDown {
        ResetState();
        return;
      }
      if subSelectState != WaitButtonDown && subSelectState != WaitButtonOrCtrlDown {
        ResetProcess(e);
        return;
      }
      JudgeTriple(e);
    }

    method InputWordTripleClickProcess(e: Event)
      requires e.Pointer? && e.button == LeftButton && e.action != EnterWindow && e.action != LeaveWindow
      modifies this
      ensures View() == TripleClickProcess(old(View()), e)
      decreases 1, 1
    {
      if e.action == ButtonDown {
        var timeout := IsClickTimeout(e.now, TRIPLE_CLICK_TIME);
        if timeout {
          ResetProcess(e);
          return;
        }
        subSelectState := WaitButtonUp;
      } else if e.action == ButtonUp {
        ProcessWordSelection(e);
      } else if e.action == Move {
        curSelectState := WaitLeftMove;
      } else {
        ResetProcess(e);
      }
    }
  }

  // ----- runs, and what an onlooker sees of them

  function Run(events: seq<Event>): State {
    if events == [] then START else Step(Run(events[..|events| - 1]), events[|events| - 1])
  }

  datatype Press = Press(time: int, at: Point)

  /** Read off the events alone: the left presses, whether the button is held, whether it
      was dragged since the last press, where it was last released, and whether ctrl went
      down (not by repetition) since that release. */
  datatype Seen = Seen(presses: seq<Press>, held: bool, dragged: bool, released: Point, ctrlDown: bool) {
    function Nth(k: nat): Press
      requires 0 < k <= |presses|
    {
      presses[|presses| - k]
    }

    /** The last two presses are quick enough for a double click. */
    ghost predicate DoublePress() {
      |presses| >= 2 && Nth(1).time - Nth(2).time <= DOUBLE_CLICK_TIME
    }

    ghost predicate TriplePress() {
      |presses| >= 3 && Nth(1).time - Nth(2).time <= TRIPLE_CLICK_TIME && Nth(2).time - Nth(3).time <= DOUBLE_CLICK_TIME
    }

    /** One of the last three presses was there. */
    ghost predicate StartsRecently(at: Point) {
      || (|presses| >= 1 && Nth(1).at == at)
      || (|presses| >= 2 && Nth(2).at == at)
      || (|presses| >= 3 && Nth(3).at == at)
    }
  }

  const NOTHING_SEEN := Seen([], false, false, Point(0, 0), false)

  predicate Left(e: Event, action: PointerAction) {
    e.Pointer? && e.button == LeftButton && e.action == action
  }

  function See(o: Seen, e: Event): Seen {
    if Left(e, ButtonDown) then Seen(o.presses + [Press(e.now, e.at)], true, false, o.released, false)
    else if Left(e, ButtonUp) then o.(held := false, released := e.at, ctrlDown := false)
    else if Left(e, Move) then o.(dragged := true)
    else if e.Key? && e.isCtrl && e.keyAction == KeyDown && !e.isRepeat then o.(ctrlDown := true)
    else o
  }

  function Watch(events: seq<Event>): Seen {
    if events == [] then NOTHING_SEEN else See(Watch(events[..|events| - 1]), events[|events| - 1])
  }

  /** A real mouse: the left button goes down only when up, and is released or dragged only
      when down. */
  predicate Plausible(o: Seen, e: Event) {
    (Left(e, ButtonDown) ==> !o.held) && (Left(e, ButtonUp) || Left(e, Move) ==> o.held)
  }

  ghost predicate PlausibleRun(events: seq<Event>) {
    events == []
    || (PlausibleRun(events[..|events| - 1]) && Plausible(Watch(events[..|events| - 1]), events[|events| - 1]))
  }

  // ----- what the reported selection says about the presses

  /** The selection type is earned by the presses and drags that were seen. */
  ghost predicate Justified(info: Info, o: Seen) {
    && info.end == o.released
    && match info.selectionType
       case NoSelection => false
       case MoveSelection => o.dragged && o.StartsRecently(info.start)
       case DoubleClicked => o.DoublePress() && info.start == o.Nth(2).at
       case TripleClicked => o.TriplePress() && info.start == o.Nth(3).at
  }

  ghost predicate AfterDouble(s: State, o: Seen) {
    o.DoublePress() && s.lastClick == o.Nth(1).time && s.info.start == o.Nth(2).at
  }

  /** What holds in each reachable pair of states; any other pair is unreachable. */
  ghost predicate Consistent(s: State, o: Seen) {
    match (s.cur, s.sub)
    case (Initial, SubInitial) => true
    case (WordBegin, SubInitial) => o.held && o.presses != [] && s.lastClick == o.Nth(1).time
        && s.info.start == o.Nth(1).at
    case (WaitLeftMove, WaitButtonUp) => o.held && o.dragged && o.StartsRecently(s.info.start)
    case (WaitDoubleClick, WaitButtonDown) => !o.held && o.presses != [] && s.lastClick == o.Nth(1).time
        && s.info.start == o.Nth(1).at
    case (WaitDoubleClick, WaitButtonUp) => o.held && AfterDouble(s, o)
    case (WaitTripleClick, WaitButtonDown) => !o.held && AfterDouble(s, o)
    case (WaitTripleClick, WaitButtonUp) => o.held && o.TriplePress() && s.lastClick == o.Nth(1).time
        && s.info.start == o.Nth(3).at
    case (WordEnd, WaitButtonDown) => !o.held && AfterDouble(s, o) && Justified(s.info, o)
    case (WordEnd, WaitButtonOrCtrlDown) => !o.held && AfterDouble(s, o) && Justified(s.info, o)
    case (WordEnd, WaitCtrlDown) => !o.held && Justified(s.info, o)
    case (WordEnd, WaitCtrlUp) => !o.held && Justified(s.info, o)
    case (Done, SubInitial) => !o.held && Justified(s.info, o)
    case (Done, WaitButtonDown) => !o.held && AfterDouble(s, o) && Justified(s.info, o)
    case _ => false
  }

  lemma KeyConsistent(s: State, o: Seen, e: Event)
    requires Consistent(s, o) && e.Key?
    ensures Consistent(Step(s, e), See(o, e))
  {
    var n := See(o, e);
    assert n.presses == o.presses && n.dragged == o.dragged && n.released == o.released && n.held == o.held;
  }

  lemma IdlePointerConsistent(s: State, o: Seen, e: Event)
    requires Consistent(s, o) && e.Pointer? && e.button != LeftButton
    ensures Consistent(Step(s, e), See(o, e))
  {
  }

  lemma PressConsistent(s: State, o: Seen, e: Event)
    requires Consistent(s, o) && Left(e, ButtonDown) && !o.held
    ensures Consistent(Step(s, e), See(o, e))
  {
    var n := See(o, e);
    assert n.Nth(1) == Press(e.now, e.at);
    assert |o.presses| >= 1 ==> n.Nth(2) == o.Nth(1);
    assert |o.presses| >= 2 ==> n.Nth(3) == o.Nth(2);
  }

  lemma OtherLeftConsistent(s: State, o: Seen, e: Event)
    requires Consistent(s, o) && e.Pointer? && e.button == LeftButton && e.action != ButtonDown && Plausible(o, e)
    ensures Consistent(Step(s, e), See(o, e))
  {
    var n := See(o, e);
    assert n.presses == o.presses;
  }

  /** Every plausible run, of any length. */
  lemma {:induction false} RunConsistent(events: seq<Event>)
    requires PlausibleRun(events)
    ensures Consistent(Run(events), Watch(events))
  {
    if events != [] {
      var init, e := events[..|events| - 1], events[|events| - 1];
      RunConsistent(init);
      var s, o := Run(init), Watch(init);
      if e.Key? {
        KeyConsistent(s, o, e);
      } else if e.Pointer? {
        if e.button != LeftButton {
          IdlePointerConsistent(s, o, e);
        } else if e.action == ButtonDown {
          PressConsistent(s, o, e);
        } else {
          OtherLeftConsistent(s, o, e);
        }
      }
    }
  }

  /** Whenever a selection stands reported, its type and its two positions are justified:
      a double click by two presses at most 550 ms apart, a triple click by a third press
      at most 300 ms after the second, a move by a drag since the last press. */
  lemma ReportIsJustified(events: seq<Event>)
    requires PlausibleRun(events) && Run(events).cur == Done
    ensures Justified(Run(events).info, Watch(events)) && !Watch(events).held
  {
    RunConsistent(events);
  }

  predicate Listed(cur: InputState, sub: SubState) {
    match cur
    case Initial => sub == SubInitial
    case WordBegin => sub == SubInitial
    case WaitLeftMove => sub == WaitButtonUp
    case WaitDoubleClick => sub == WaitButtonDown || sub == WaitButtonUp
    case WaitTripleClick => sub == WaitButtonDown || sub == WaitButtonUp
    case WordEnd => sub != SubInitial && sub != WaitButtonUp
    case Done => sub == SubInitial || sub == WaitButtonDown
  }

  // ----- exactly which pairs of states occur

  lemma RunSnoc(events: seq<Event>, e: Event)
    ensures Run(events + [e]) == Step(Run(events), e) && Watch(events + [e]) == See(Watch(events), e)
    ensures PlausibleRun(events) && Plausible(Watch(events), e) ==> PlausibleRun(events + [e])
  {
    assert (events + [e])[..|events|] == events;
  }

  function At(action: PointerAction, now: int, ctrlTrigger: bool): Event {
    Pointer(LeftButton, action, Point(0, 0), now, ctrlTrigger)
  }

  ghost predicate Reaches(s: State, o: Seen) {
    exists events :: PlausibleRun(events) && Run(events) == s && Watch(events) == o
  }

  lemma ReachStart()
    ensures Reaches(START, NOTHING_SEEN)
  {
    assert PlausibleRun([]) && Run([]) == START && Watch([]) == NOTHING_SEEN;
  }

  lemma ReachNext(s: State, o: Seen, e: Event, t: State, p: Seen)
    requires Reaches(s, o) && Plausible(o, e) && Step(s, e) == t && See(o, e) == p
    ensures Reaches(t, p)
  {
    var events :| PlausibleRun(events) && Run(events) == s && Watch(events) == o;
    RunSnoc(events, e);
  }

  ghost predicate PairOccurs(cur: InputState, sub: SubState) {
    exists s, o :: Reaches(s, o) && s.cur == cur && s.sub == sub
  }

  const ORIGIN := Point(0, 0)

  /** A state and a view in which everything happened at time 0 and at the origin. */
  function Still(cur: InputState, sub: SubState, selectionType: SelectionType, id: nat): State {
    State(cur, sub, 0, Info(ORIGIN, ORIGIN, selectionType), id)
  }

  function Clicked(presses: seq<Press>, held: bool): Seen { Seen(presses, held, false, ORIGIN, false) }

  const ONE_PRESS := [Press(0, ORIGIN)]
  const TWO_PRESSES := [Press(0, ORIGIN), Press(0, ORIGIN)]

  lemma Pressed()
    ensures Reaches(Still(WordBegin, SubInitial, NoSelection, 0), Clicked(ONE_PRESS, true))
  {
    ReachStart();
    assert [] + [Press(0, ORIGIN)] == ONE_PRESS;
    ReachNext(START, NOTHING_SEEN, At(ButtonDown, 0, false), Still(WordBegin, SubInitial, NoSelection, 0),
      Clicked(ONE_PRESS, true));
  }

  lemma Released()
    ensures Reaches(Still(WaitDoubleClick, WaitButtonDown, NoSelection, 0), Clicked(ONE_PRESS, false))
  {
    Pressed();
    ReachNext(Still(WordBegin, SubInitial, NoSelection, 0), Clicked(ONE_PRESS, true), At(ButtonUp, 0, false),
      Still(WaitDoubleClick, WaitButtonDown, NoSelection, 0), Clicked(ONE_PRESS, false));
  }

  lemma PressedAgain()
    ensures Reaches(Still(WaitDoubleClick, WaitButtonUp, NoSelection, 0), Clicked(TWO_PRESSES, true))
  {
    Released();
    assert ONE_PRESS + [Press(0, ORIGIN)] == TWO_PRESSES;
    ReachNext(Still(WaitDoubleClick, WaitButtonDown, NoSelection, 0), Clicked(ONE_PRESS, false),
        At(ButtonDown, 0, false),
      Still(WaitDoubleClick, WaitButtonUp, NoSelection, 0), Clicked(TWO_PRESSES, true));
  }

  lemma Occurs(s: State, o: Seen, e: Event, t: State, p: Seen)
    requires Reaches(s, o) && Plausible(o, e) && Step(s, e) == t && See(o, e) == p
    ensures Reaches(t, p) && PairOccurs(t.cur, t.sub)
  {
    ReachNext(s, o, e, t, p);
  }

  lemma DragBegins()
    ensures Reaches(Still(WaitLeftMove, WaitButtonUp, NoSelection, 0), Seen(ONE_PRESS, true, true, ORIGIN, false))
  {
    Pressed();
    Occurs(Still(WordBegin, SubInitial, NoSelection, 0), Clicked(ONE_PRESS, true), At(Move, 0, false),
      Still(WaitLeftMove, WaitButtonUp, NoSelection, 0), Seen(ONE_PRESS, true, true, ORIGIN, false));
  }

  lemma DragReported()
    ensures PairOccurs(Done, SubInitial)
  {
    DragBegins();
    Occurs(Still(WaitLeftMove, WaitButtonUp, NoSelection, 0), Seen(ONE_PRESS, true, true, ORIGIN, false),
        At(ButtonUp, 0, false),
      Still(Done, SubInitial, MoveSelection, 1), Seen(ONE_PRESS, false, true, ORIGIN, false));
  }

  lemma DoubleReported()
    ensures Reaches(Still(Done, WaitButtonDown, DoubleClicked, 1), Clicked(TWO_PRESSES, false))
  {
    PressedAgain();
    Occurs(Still(WaitDoubleClick, WaitButtonUp, NoSelection, 0), Clicked(TWO_PRESSES, true), At(ButtonUp, 0, false),
      Still(Done, WaitButtonDown, DoubleClicked, 1), Clicked(TWO_PRESSES, false));
  }

  lemma KeyAfterDouble()
    ensures PairOccurs(WordEnd, WaitButtonDown)
  {
    DoubleReported();
    Occurs(Still(Done, WaitButtonDown, DoubleClicked, 1), Clicked(TWO_PRESSES, false), Key(false, KeyDown, false),
      Still(WordEnd, WaitButtonDown, DoubleClicked, 1), Clicked(TWO_PRESSES, false));
  }

  lemma TremorAfterDouble()
    ensures PairOccurs(WaitTripleClick, WaitButtonDown)
  {
    DoubleReported();
    Occurs(Still(Done, WaitButtonDown, DoubleClicked, 1), Clicked(TWO_PRESSES, false),
        Pointer(NoButton, Move, ORIGIN, 0, false),
      Still(WaitTripleClick, WaitButtonDown, DoubleClicked, 1), Clicked(TWO_PRESSES, false));
  }

  lemma ThirdPress()
    ensures PairOccurs(WaitTripleClick, WaitButtonUp)
  {
    DoubleReported();
    Occurs(Still(Done, WaitButtonDown, DoubleClicked, 1), Clicked(TWO_PRESSES, false), At(ButtonDown, 0, false),
      Still(WaitTripleClick, WaitButtonUp, DoubleClicked, 1), Clicked(TWO_PRESSES + ONE_PRESS, true));
  }

  lemma DoubleAwaitsCtrl()
    ensures Reaches(Still(WordEnd, WaitButtonOrCtrlDown, DoubleClicked, 0), Clicked(TWO_PRESSES, false))
  {
    PressedAgain();
    Occurs(Still(WaitDoubleClick, WaitButtonUp, NoSelection, 0), Clicked(TWO_PRESSES, true), At(ButtonUp, 0, true),
      Still(WordEnd, WaitButtonOrCtrlDown, DoubleClicked, 0), Clicked(TWO_PRESSES, false));
  }

  lemma MoveAwaitsCtrl()
    ensures PairOccurs(WordEnd, WaitCtrlDown)
  {
    DoubleAwaitsCtrl();
    Occurs(Still(WordEnd, WaitButtonOrCtrlDown, DoubleClicked, 0), Clicked(TWO_PRESSES, false),
        Pointer(NoButton, Move, ORIGIN, 0, true),
      Still(WordEnd, WaitCtrlDown, DoubleClicked, 0), Clicked(TWO_PRESSES, false));
  }

  lemma CtrlIsDown()
    ensures PairOccurs(WordEnd, WaitCtrlUp)
  {
    DoubleAwaitsCtrl();
    Occurs(Still(WordEnd, WaitButtonOrCtrlDown, DoubleClicked, 0), Clicked(TWO_PRESSES, false),
        Key(true, KeyDown, false),
      Still(WordEnd, WaitCtrlUp, DoubleClicked, 0), Seen(TWO_PRESSES, false, false, ORIGIN, true));
  }

  lemma ListedOccurs(cur: InputState, sub: SubState)
    requires Listed(cur, sub)
    ensures PairOccurs(cur, sub)
  {
    match (cur, sub)
    case (Initial, _) => ReachStart();
    case (WordBegin, _) => Pressed();
    case (WaitLeftMove, _) => DragBegins();
    case (WaitDoubleClick, WaitButtonDown) => Released();
    case (WaitDoubleClick, _) => PressedAgain();
    case (WaitTripleClick, WaitButtonDown) => TremorAfterDouble();
    case (WaitTripleClick, _) => ThirdPress();
    case (WordEnd, WaitButtonDown) => KeyAfterDouble();
    case (WordEnd, WaitCtrlDown) => MoveAwaitsCtrl();
    case (WordEnd, WaitCtrlUp) => CtrlIsDown();
    case (WordEnd, _) => DoubleAwaitsCtrl();
    case (Done, SubInitial) => DragReported();
    case (Done, _) => DoubleReported();
  }

  lemma OccursListed(cur: InputState, sub: SubState)
    requires PairOccurs(cur, sub)
    ensures Listed(cur, sub)
  {
    var s, o :| Reaches(s, o) && s.cur == cur && s.sub == sub;
    var events :| PlausibleRun(events) && Run(events) == s && Watch(events) == o;
    RunConsistent(events);
  }

  /** The thirteen listed pairs are exactly the ones that plausible runs reach. */
  lemma ReachablePairs(cur: InputState, sub: SubState)
    ensures PairOccurs(cur, sub) <==> Listed(cur, sub)
  {
    if Listed(cur, sub) {
      ListedOccurs(cur, sub);
    } else if PairOccurs(cur, sub) {
      OccursListed(cur, sub);
    }
  }

  /** The listed pairs, and a drag with the button up. */
  predicate ListedOrLoose(s: State) {
    Listed(s.cur, s.sub) || (s.cur == WaitLeftMove && s.sub == WaitButtonDown)
  }

  /** Without plausibility one more pair occurs: a drag with the button up. */
  lemma {:induction false} ReachableByAnyRun(events: seq<Event>)
    ensures ListedOrLoose(Run(events))
  {
    if events != [] {
      ReachableByAnyRun(events[..|events| - 1]);
      LooseStep(Run(events[..|events| - 1]), events[|events| - 1]);
    }
  }

  lemma LooseStep(s: State, e: Event)
    requires ListedOrLoose(s)
    ensures ListedOrLoose(Step(s, e))
  {
  }

  // ----- entering and leaving Done

  predicate AlwaysCtrl(events: seq<Event>) {
    forall e :: e in events && e.Pointer? ==> e.ctrlTrigger
  }

  lemma {:induction false} CtrlUpAwaitedAfterCtrlDown(events: seq<Event>)
    ensures Run(events).sub == WaitCtrlUp ==> Watch(events).ctrlDown
  {
    if events != [] {
      CtrlUpAwaitedAfterCtrlDown(events[..|events| - 1]);
      ReachableByAnyRun(events[..|events| - 1]);
    }
  }

  /** With the ctrl trigger on throughout, a report is made only by a ctrl release that
      follows a ctrl press made after the mouse button was last released. */
  lemma CtrlConfirms(events: seq<Event>, e: Event)
    requires AlwaysCtrl(events + [e]) && Run(events).cur != Done && Run(events + [e]).cur == Done
    ensures e.Key? && e.isCtrl && e.keyAction == KeyUp
    ensures Run(events).cur == WordEnd && Watch(events).ctrlDown
  {
    RunSnoc(events, e);
    CtrlUpAwaitedAfterCtrlDown(events);
    assert e in events + [e];
  }

  /** Done survives a step exactly on window enter or leave and on axis events, which
      change nothing at all. */
  lemma DoneIsFleeting(events: seq<Event>, e: Event)
    requires Run(events).cur == Done
    ensures Run(events + [e]).cur == Done <==>
              e.Axis? || (e.Pointer? && (e.action == EnterWindow || e.action == LeaveWindow))
    ensures Run(events + [e]).cur == Done ==> Run(events + [e]) == Run(events)
  {
    ReachableByAnyRun(events);
    RunSnoc(events, e);
  }

  predicate Entering(s: State, e: Event) { s.cur != Done && Step(s, e).cur == Done }

  function Reports(events: seq<Event>): nat {
    if events == [] then 0 else
    var init, e := events[..|events| - 1], events[|events| - 1];
    Reports(init) + if Entering(Run(init), e) then 1 else 0
  }

  /** The sequence id counts the entries into Done, each once, modulo 2^32. */
  lemma {:induction false} SequenceIdCountsReports(events: seq<Event>)
    ensures Run(events).seqId == Reports(events) % 0x1_0000_0000
  {
    if events != [] {
      var init, e := events[..|events| - 1], events[|events| - 1];
      SequenceIdCountsReports(init);
      OneIdPerReport(Run(init), e);
      NextModulo(Reports(init));
    }
  }

  lemma NextModulo(n: nat)
    ensures (n % 0x1_0000_0000 + 1) % 0x1_0000_0000 == (n + 1) % 0x1_0000_0000
  {
  }

  lemma OneIdPerReport(s: State, e: Event)
    ensures Step(s, e).seqId ==
            if Entering(s, e) then (s.seqId + 1) % 0x1_0000_0000 else s.seqId
  {
  }

  // ----- what must be reported: gestures after any earlier run

  function RunFrom(s: State, events: seq<Event>): State {
    if events == [] then s else Step(RunFrom(s, events[..|events| - 1]), events[|events| - 1])
  }

  lemma RunFromSnoc(s: State, events: seq<Event>, e: Event)
    ensures RunFrom(s, events + [e]) == Step(RunFrom(s, events), e)
  {
    assert (events + [e])[..|events|] == events;
  }

  lemma {:induction false} RunFromAppend(s: State, a: seq<Event>, b: seq<Event>)
    ensures RunFrom(s, a + b) == RunFrom(RunFrom(s, a), b)
    decreases |b|
  {
    if b == [] {
      assert a + b == a;
    } else {
      var n := |b| - 1;
      RunFromAppend(s, a, b[..n]);
      assert (a + b)[..|a + b| - 1] == a + b[..n];
    }
  }

  lemma {:induction false} RunContinues(before: seq<Event>, events: seq<Event>)
    ensures Run(before + events) == RunFrom(Run(before), events)
    decreases |events|
  {
    if events == [] {
      assert before + events == before;
    } else {
      var n := |events| - 1;
      RunContinues(before, events[..n]);
      assert (before + events)[..|before + events| - 1] == before + events[..n];
    }
  }

  /** Axis events and window enter and leave events. */
  predicate Quiet(e: Event) { e.Axis? || (e.Pointer? && (e.action == EnterWindow || e.action == LeaveWindow)) }

  function Loud(events: seq<Event>): seq<Event> {
    if events == [] then [] else
    Loud(events[..|events| - 1]) + if Quiet(events[|events| - 1]) then [] else [events[|events| - 1]]
  }

  /** Quiet events may be mixed in anywhere: they change nothing. */
  lemma {:induction false} QuietIsNothing(s: State, events: seq<Event>)
    ensures RunFrom(s, events) == RunFrom(s, Loud(events))
  {
    if events != [] {
      var init, e := events[..|events| - 1], events[|events| - 1];
      QuietIsNothing(s, init);
      if Quiet(e) {
        assert Loud(events) == Loud(init);
      } else {
        RunFromSnoc(s, Loud(init), e);
      }
    }
  }

  predicate Resting(s: State) { s.cur == Initial && s.sub == SubInitial }

  /** A press at this time starts a gesture: at rest, after a report or a selection that awaits no
      click, or too late for the click that is awaited. */
  predicate Starts(s: State, now: int) {
    || Resting(s)
    || ((s.cur == Done || s.cur == WordEnd) && (s.sub == SubInitial || s.sub == WaitCtrlDown || s.sub == WaitCtrlUp))
    || (s.cur == WaitDoubleClick && s.sub == WaitButtonDown && now - s.lastClick > DOUBLE_CLICK_TIME)
    || ((s.cur == Done || s.cur == WordEnd || s.cur == WaitTripleClick)
        && (s.sub == WaitButtonDown || s.sub == WaitButtonOrCtrlDown) && now - s.lastClick > TRIPLE_CLICK_TIME)
  }

  /** In a plausible run with the button up, a press starts a gesture in exactly these states; in
      the others it continues one. */
  lemma StartsExactly(events: seq<Event>, p: Point, now: int, ctrl: bool)
    requires PlausibleRun(events) && !Watch(events).held
    ensures var s, t := Run(events), Step(Run(events), Pointer(LeftButton, ButtonDown, p, now, ctrl));
            && (Starts(s, now) <==> t.cur == WordBegin)
            && (Starts(s, now) ==> t.sub == SubInitial && t.lastClick == now && t.info.start == p)
            && (!Starts(s, now) ==> PressedFrom(t, s.info.start) && t.lastClick == now)
  {
    RunConsistent(events);
  }

  /** A press, and the release that goes with it. */
  datatype MouseClick = MouseClick(down: int, at: Point, up: int, upAt: Point)

  function Clicking(c: MouseClick, ctrl: bool): seq<Event> {
    [Pointer(LeftButton, ButtonDown, c.at, c.down, ctrl), Pointer(LeftButton, ButtonUp, c.upAt, c.up, ctrl)]
  }

  lemma ClickSteps(s: State, c: MouseClick, ctrl: bool)
    ensures RunFrom(s, Clicking(c, ctrl)) == Step(Step(s, Clicking(c, ctrl)[0]), Clicking(c, ctrl)[1])
  {
    var es := Clicking(c, ctrl);
    RunFromSnoc(s, [], es[0]);
    RunFromSnoc(s, [es[0]], es[1]);
    assert [] + [es[0]] == [es[0]] && [es[0]] + [es[1]] == es;
  }

  /** Moves with no button pressed. */
  predicate Hover(es: seq<Event>) {
    forall i :: 0 <= i < |es| ==> es[i].Pointer? && es[i].button == NoButton && es[i].action == Move
  }

  /** At most ten away, along and across. */
  predicate Close(p: Point, q: Point) { -10 <= p.x - q.x <= 10 && -10 <= p.y - q.y <= 10 }

  predicate StaysClose(p: Point, hover: seq<Event>)
    requires Hover(hover)
  {
    forall i :: 0 <= i < |hover| ==> Close(p, hover[i].at)
  }

  predicate FirstDone(s: State, c: MouseClick) {
    s.cur == WaitDoubleClick && s.sub == WaitButtonDown && s.lastClick == c.down && s.info.start == c.at
  }

  /** Reported as a double click, and perhaps hovering since. */
  predicate SecondDone(s: State, p: Point, c: MouseClick) {
    (s.cur == Done || s.cur == WaitTripleClick) && s.sub == WaitButtonDown && s.lastClick == c.down && s.info.start == p
  }

  predicate Reported(s: State, start: Point, end: Point, selectionType: SelectionType) {
    s.cur == Done && s.info == Info(start, end, selectionType)
  }

  /** Selected, but waiting for ctrl. */
  predicate Awaiting(s: State, start: Point, end: Point, selectionType: SelectionType) {
    && s.cur == WordEnd && (s.sub == WaitCtrlDown || s.sub == WaitButtonOrCtrlDown)
    && s.info == Info(start, end, selectionType)
  }

  /** Reported at once, or selected when the ctrl trigger is on. */
  predicate Selected(s: State, ctrl: bool, start: Point, end: Point, selectionType: SelectionType) {
    if ctrl then Awaiting(s, start, end, selectionType) else Reported(s, start, end, selectionType)
  }

  lemma FirstClick(s: State, c: MouseClick, ctrl: bool)
    requires Starts(s, c.down)
    ensures FirstDone(RunFrom(s, Clicking(c, ctrl)), c)
  {
    ClickSteps(s, c, ctrl);
  }

  /** Hovering close by keeps the wait for a second click, hovering away ends it. */
  lemma {:induction false} HoverAfterFirst(s: State, c: MouseClick, hover: seq<Event>)
    requires FirstDone(s, c) && Hover(hover)
    ensures if StaysClose(c.at, hover) then RunFrom(s, hover) == s else Resting(RunFrom(s, hover))
  {
    if hover != [] {
      var n := |hover| - 1;
      HoverAfterFirst(s, c, hover[..n]);
      assert StaysClose(c.at, hover) <==> StaysClose(c.at, hover[..n]) && Close(c.at, hover[n].at);
    }
  }

  /** A second click selects when it comes in time, and counts as a first one when it does not. */
  lemma SecondClick(s: State, c: MouseClick, d: MouseClick, ctrl: bool)
    requires FirstDone(s, c)
    ensures var t := RunFrom(s, Clicking(d, ctrl));
            if d.down - c.down <= DOUBLE_CLICK_TIME
            then Selected(t, ctrl, c.at, d.upAt, DoubleClicked) && t.lastClick == d.down
                 && t.sub == if ctrl then WaitButtonOrCtrlDown else WaitButtonDown
            else FirstDone(t, d)
  {
    ClickSteps(s, d, ctrl);
  }

  lemma {:induction false} HoverAfterSecond(s: State, p: Point, d: MouseClick, hover: seq<Event>)
    requires SecondDone(s, p, d) && Hover(hover)
    ensures var t := RunFrom(s, hover);
            if StaysClose(p, hover) then SecondDone(t, p, d) && t.info == s.info else Resting(t)
  {
    if hover != [] {
      var n := |hover| - 1;
      HoverAfterSecond(s, p, d, hover[..n]);
      assert StaysClose(p, hover) <==> StaysClose(p, hover[..n]) && Close(p, hover[n].at);
    }
  }

  /** With the ctrl trigger on, any hovering ends the wait for a third click. */
  lemma {:induction false} HoverAfterSecondCtrl(s: State, hover: seq<Event>)
    requires s.cur == WordEnd && (s.sub == WaitButtonOrCtrlDown || s.sub == WaitCtrlDown) && Hover(hover)
    ensures RunFrom(s, hover) == if hover == [] then s else s.(sub := WaitCtrlDown)
  {
    if hover != [] {
      HoverAfterSecondCtrl(s, hover[..|hover| - 1]);
    }
  }

  lemma ThirdClick(s: State, p: Point, d: MouseClick, e: MouseClick, ctrl: bool)
    requires SecondDone(s, p, d)
             || (s.cur == WordEnd && s.sub == WaitButtonOrCtrlDown && s.lastClick == d.down && s.info.start == p)
    ensures var t := RunFrom(s, Clicking(e, ctrl));
            if e.down - d.down <= TRIPLE_CLICK_TIME then Selected(t, ctrl, p, e.upAt, TripleClicked)
            else FirstDone(t, e)
  {
    ClickSteps(s, e, ctrl);
    PressAfterTwo(s, p, d, e, ctrl);
    LastRelease(Step(s, Clicking(e, ctrl)[0]), p, e, ctrl, e.down - d.down <= TRIPLE_CLICK_TIME);
  }

  lemma PressAfterTwo(s: State, p: Point, d: MouseClick, e: MouseClick, ctrl: bool)
    requires SecondDone(s, p, d)
             || (s.cur == WordEnd && s.sub == WaitButtonOrCtrlDown && s.lastClick == d.down && s.info.start == p)
    ensures var t := Step(s, Clicking(e, ctrl)[0]);
            && t.lastClick == e.down
            && (if e.down - d.down <= TRIPLE_CLICK_TIME
                then t.cur == WaitTripleClick && t.sub == WaitButtonUp && t.info.start == p
                else t.cur == WordBegin && t.sub == SubInitial && t.info.start == e.at)
  {
  }

  lemma LastRelease(t: State, p: Point, e: MouseClick, ctrl: bool, third: bool)
    requires t.lastClick == e.down
    requires if third then t.cur == WaitTripleClick && t.sub == WaitButtonUp && t.info.start == p
             else t.cur == WordBegin && t.sub == SubInitial && t.info.start == e.at
    ensures var u := Step(t, Clicking(e, ctrl)[1]);
            if third then Selected(u, ctrl, p, e.upAt, TripleClicked) else FirstDone(u, e)
  {
  }

  /** After any run that lets it start, two clicks with any hovering between: a double
      click from the first press to the last release, exactly when the presses are at most 550 ms
      apart and the pointer stayed close. */
  lemma DoubleClickRecognised(before: seq<Event>, c: MouseClick, hover: seq<Event>, d: MouseClick, ctrl: bool)
    requires Starts(Run(before), c.down) && Hover(hover)
    ensures var t := Run(before + (Clicking(c, ctrl) + hover + Clicking(d, ctrl)));
            && (d.down - c.down <= DOUBLE_CLICK_TIME && StaysClose(c.at, hover) <==>
                  Selected(t, ctrl, c.at, d.upAt, DoubleClicked))
            && (!ctrl ==> (t.cur == Done <==> Reported(t, c.at, d.upAt, DoubleClicked)))
  {
    RunContinues(before, Clicking(c, ctrl) + hover + Clicking(d, ctrl));
    TwoClicks(Run(before), c, hover, d, ctrl);
  }

  lemma TwoClicks(s: State, c: MouseClick, hover: seq<Event>, d: MouseClick, ctrl: bool)
    requires Starts(s, c.down) && Hover(hover)
    ensures var t := RunFrom(s, Clicking(c, ctrl) + hover + Clicking(d, ctrl));
            if d.down - c.down <= DOUBLE_CLICK_TIME && StaysClose(c.at, hover)
            then Selected(t, ctrl, c.at, d.upAt, DoubleClicked) && t.lastClick == d.down
                 && t.sub == if ctrl then WaitButtonOrCtrlDown else WaitButtonDown
            else FirstDone(t, d)
  {
    var s1 := RunFrom(s, Clicking(c, ctrl));
    var s2 := RunFrom(s1, hover);
    RunFromAppend(s, Clicking(c, ctrl) + hover, Clicking(d, ctrl));
    RunFromAppend(s, Clicking(c, ctrl), hover);
    FirstClick(s, c, ctrl);
    HoverAfterFirst(s1, c, hover);
    if StaysClose(c.at, hover) {
      SecondClick(s2, c, d, ctrl);
    } else {
      FirstClick(s2, d, ctrl);
    }
  }

  /** Three clicks: a triple click from the first press to the last release, exactly when both
      intervals are short enough and the pointer stayed close to the first press (with the ctrl
      trigger on: was not moved at all before the third). */
  lemma TripleClickRecognised(before: seq<Event>, c: MouseClick, hover: seq<Event>, d: MouseClick, hover': seq<Event>,
      e: MouseClick, ctrl: bool)
    requires Starts(Run(before), c.down) && Hover(hover) && Hover(hover')
    ensures var t := Run(before + ((Clicking(c, ctrl) + hover + Clicking(d, ctrl)) + hover' + Clicking(e, ctrl)));
            Selected(t, ctrl, c.at, e.upAt, TripleClicked) <==>
              && d.down - c.down <= DOUBLE_CLICK_TIME && e.down - d.down <= TRIPLE_CLICK_TIME
              && StaysClose(c.at, hover) && (if ctrl then hover' == [] else StaysClose(c.at, hover'))
  {
    var s, two := Run(before), Clicking(c, ctrl) + hover + Clicking(d, ctrl);
    RunContinues(before, two + hover' + Clicking(e, ctrl));
    RunFromAppend(s, two + hover', Clicking(e, ctrl));
    RunFromAppend(s, two, hover');
    TwoClicks(s, c, hover, d, ctrl);
    var s2 := RunFrom(s, two);
    if d.down - c.down <= DOUBLE_CLICK_TIME && StaysClose(c.at, hover) {
      AfterTwo(s2, c.at, d, hover', e, ctrl);
    } else {
      AfterOne(s2, d, hover', e, ctrl);
    }
  }

  lemma AfterTwo(s: State, p: Point, d: MouseClick, hover: seq<Event>, e: MouseClick, ctrl: bool)
    requires Hover(hover) && Selected(s, ctrl, p, d.upAt, DoubleClicked) && s.lastClick == d.down
    requires s.sub == if ctrl then WaitButtonOrCtrlDown else WaitButtonDown
    ensures var t := RunFrom(RunFrom(s, hover), Clicking(e, ctrl));
            Selected(t, ctrl, p, e.upAt, TripleClicked) <==>
              e.down - d.down <= TRIPLE_CLICK_TIME && (if ctrl then hover == [] else StaysClose(p, hover))
  {
    if ctrl {
      HoverAfterSecondCtrl(s, hover);
      if hover == [] {
        ThirdClick(s, p, d, e, ctrl);
      } else {
        ClickSteps(s.(sub := WaitCtrlDown), e, ctrl);
      }
    } else {
      HoverAfterSecond(s, p, d, hover);
      if StaysClose(p, hover) {
        ThirdClick(RunFrom(s, hover), p, d, e, ctrl);
      } else {
        FirstClick(RunFrom(s, hover), e, ctrl);
      }
    }
  }

  lemma AfterOne(s: State, d: MouseClick, hover: seq<Event>, e: MouseClick, ctrl: bool)
    requires Hover(hover) && FirstDone(s, d)
    ensures var t := RunFrom(RunFrom(s, hover), Clicking(e, ctrl)); t.info.selectionType == TripleClicked ==>
              t.cur == WaitDoubleClick
  {
    HoverAfterFirst(s, d, hover);
    if StaysClose(d.at, hover) {
      SecondClick(s, d, e, ctrl);
    } else {
      FirstClick(RunFrom(s, hover), e, ctrl);
    }
  }

  // ----- drags

  /** Moves with the left button. */
  predicate Dragging(es: seq<Event>) { forall i :: 0 <= i < |es| ==> Left(es[i], Move) }

  /** The first press, or a later one in time. */
  predicate PressedFrom(s: State, p: Point) {
    && s.info.start == p
    && ((s.cur == WordBegin && s.sub == SubInitial)
        || ((s.cur == WaitDoubleClick || s.cur == WaitTripleClick) && s.sub == WaitButtonUp))
  }

  lemma {:induction false} DragSteps(s: State, p: Point, moves: seq<Event>)
    requires PressedFrom(s, p) && Dragging(moves) && moves != []
    ensures RunFrom(s, moves) == s.(cur := WaitLeftMove, sub := WaitButtonUp)
  {
    var n := |moves| - 1;
    assert Left(moves[n], Move);
    if n > 0 {
      DragSteps(s, p, moves[..n]);
    }
  }

  lemma DragEnds(s: State, p: Point, moves: seq<Event>, at: Point, now: int, ctrl: bool)
    requires PressedFrom(s, p) && Dragging(moves) && moves != []
    ensures Selected(RunFrom(s, moves + [Pointer(LeftButton, ButtonUp, at, now, ctrl)]), ctrl, p, at, MoveSelection)
  {
    DragSteps(s, p, moves);
    RunFromSnoc(s, moves, Pointer(LeftButton, ButtonUp, at, now, ctrl));
  }

  function Pressing(c: MouseClick, ctrl: bool): seq<Event> { [Pointer(LeftButton, ButtonDown, c.at, c.down, ctrl)] }

  lemma OneStep(s: State, e: Event)
    ensures RunFrom(s, [e]) == Step(s, e)
  {
    RunFromSnoc(s, [], e);
    assert [] + [e] == [e];
  }

  /** Press, drag and release: a selection from the press to the release. */
  lemma DragRecognised(before: seq<Event>, c: MouseClick, moves: seq<Event>, ctrl: bool)
    requires Starts(Run(before), c.down) && Dragging(moves) && moves != []
    ensures Selected(Run(before + (Pressing(c, ctrl) + (moves + [Pointer(LeftButton, ButtonUp, c.upAt, c.up, ctrl)]))),
              ctrl, c.at, c.upAt, MoveSelection)
  {
    var rest := moves + [Pointer(LeftButton, ButtonUp, c.upAt, c.up, ctrl)];
    RunContinues(before, Pressing(c, ctrl) + rest);
    RunFromAppend(Run(before), Pressing(c, ctrl), rest);
    OneStep(Run(before), Pressing(c, ctrl)[0]);
    DragEnds(RunFrom(Run(before), Pressing(c, ctrl)), c.at, moves, c.upAt, c.up, ctrl);
  }

  /** A drag with the second press, if that is in time, selects from the first press. */
  lemma DragAfterClick(before: seq<Event>, c: MouseClick, d: MouseClick, moves: seq<Event>, ctrl: bool)
    requires Starts(Run(before), c.down) && Dragging(moves) && moves != []
    ensures var drag := Pressing(d, ctrl) + (moves + [Pointer(LeftButton, ButtonUp, d.upAt, d.up, ctrl)]);
            Selected(Run(before + (Clicking(c, ctrl) + drag)), ctrl,
              if d.down - c.down <= DOUBLE_CLICK_TIME then c.at else d.at, d.upAt, MoveSelection)
  {
    var rest := moves + [Pointer(LeftButton, ButtonUp, d.upAt, d.up, ctrl)];
    var s := RunFrom(Run(before), Clicking(c, ctrl));
    RunContinues(before, Clicking(c, ctrl) + (Pressing(d, ctrl) + rest));
    RunFromAppend(Run(before), Clicking(c, ctrl), Pressing(d, ctrl) + rest);
    RunFromAppend(s, Pressing(d, ctrl), rest);
    FirstClick(Run(before), c, ctrl);
    OneStep(s, Pressing(d, ctrl)[0]);
    var from := if d.down - c.down <= DOUBLE_CLICK_TIME then c.at else d.at;
    DragEnds(RunFrom(s, Pressing(d, ctrl)), from, moves, d.upAt, d.up, ctrl);
  }

  // ----- the ctrl tap

  /** Moves with no button and repeated ctrl presses. */
  predicate Idle(es: seq<Event>) {
    forall i :: 0 <= i < |es| ==>
      if es[i].Key? then es[i].isCtrl && es[i].keyAction == KeyDown && es[i].isRepeat
      else es[i].Pointer? && es[i].button == NoButton && es[i].action == Move
  }

  lemma {:induction false} IdleWhileWaiting(s: State, idle: seq<Event>)
    requires s.cur == WordEnd && (s.sub == WaitButtonOrCtrlDown || s.sub == WaitCtrlDown || s.sub == WaitCtrlUp)
    requires Idle(idle)
    ensures var t := RunFrom(s, idle);
            && t == s.(sub := t.sub)
            && (t.sub == s.sub || (s.sub == WaitButtonOrCtrlDown && t.sub == WaitCtrlDown))
  {
    if idle != [] {
      IdleWhileWaiting(s, idle[..|idle| - 1]);
      assert Idle(idle);
    }
  }

  /** What a key does to a selection that waits for ctrl: going down, repeating, or repeating its
      going up before it went down, ctrl leaves it waiting; going up after it went down, it has it
      reported; any other key event cancels it. */
  lemma KeyWhileWaiting(s: State, e: Event)
    requires e.Key? && s.cur == WordEnd
    requires s.sub == WaitButtonOrCtrlDown || s.sub == WaitCtrlDown || s.sub == WaitCtrlUp
    ensures var t, down := Step(s, e), s.sub == WaitCtrlUp;
            && (t.cur == Done <==> e.isCtrl && e.keyAction == KeyUp && down)
            && (t.cur == WordEnd <==>
                  && e.isCtrl
                  && ((e.keyAction == KeyDown && (e.isRepeat || !down))
                      || (e.keyAction == KeyUp && e.isRepeat && !down)))
            && (t.cur == WordEnd ==>
                  t == s.(sub := if e.keyAction == KeyDown && !e.isRepeat then WaitCtrlUp else s.sub))
            && (t.cur != Done && t.cur != WordEnd ==> Resting(t)) && t.info == s.info
  {
  }

  /** Ctrl goes down and up, with idle events before and between. */
  function Tap(idle: seq<Event>, idle': seq<Event>): seq<Event> {
    idle + [Key(true, KeyDown, false)] + idle' + [Key(true, KeyUp, false)]
  }

  /** A selection of any kind that waits for ctrl is reported, unchanged, by a tap of ctrl. */
  lemma CtrlTapReports(s: State, start: Point, end: Point, selectionType: SelectionType, idle: seq<Event>,
      idle': seq<Event>)
    requires Awaiting(s, start, end, selectionType) && Idle(idle) && Idle(idle')
    ensures Reported(RunFrom(s, Tap(idle, idle')), start, end, selectionType)
    ensures RunFrom(s, Tap(idle, idle')).seqId == (s.seqId + 1) % 0x1_0000_0000
  {
    var down, up := Key(true, KeyDown, false), Key(true, KeyUp, false);
    var s1 := RunFrom(s, idle);
    var s2 := Step(s1, down);
    IdleWhileWaiting(s, idle);
    RunFromSnoc(s, idle, down);
    IdleWhileWaiting(s2, idle');
    RunFromAppend(s, idle + [down], idle');
    RunFromSnoc(s, idle + [down] + idle', up);
  }

  /** With the ctrl trigger on: nothing yet after the gesture, and the same selection as with it
      off, once ctrl is tapped. */
  lemma SelectionIsReported(before: seq<Event>, gesture: seq<Event>, start: Point, end: Point,
      selectionType: SelectionType, idle: seq<Event>, idle': seq<Event>)
    requires Selected(Run(before + gesture), true, start, end, selectionType) && Idle(idle) && Idle(idle')
    ensures Run(before + gesture).cur != Done
    ensures Reported(Run(before + gesture + Tap(idle, idle')), start, end, selectionType)
  {
    RunContinues(before + gesture, Tap(idle, idle'));
    CtrlTapReports(Run(before + gesture), start, end, selectionType, idle, idle');
  }
}
