/** `HIDService` as the source has it: class-level state updated in place
    by `show_lever`, `m_press`, `m_release` and the hardware path of
    `process_structured_hid_data`.  The two hold arrays are fixed-size
    buffers written cell by cell; every method is proved to produce the
    state and the batch that the matching `Translator` function specifies. */
module Service {
  import opened Wire
  import opened Lever
  import opened Buttons
  import opened Overlay
  import opened Translator

  /** `close_swing`: append a hide for each of the five lever images.  The
      source iterates a Python set, so the order is left open: each round
      takes any image not yet hidden. */
  method CloseSwing(events: seq<Event>) returns (r: seq<Event>)
    ensures |r| == |events| + 5 && r[..|events|] == events
    ensures IsCloseSwing(r[|events|..])
  {
    var remaining: set<Band> := {LeverM2, LeverM1, Lever0, LeverP1, LeverP2};
    var added: seq<Event> := [];
    forall b ensures b in remaining {
      match b
      case LeverM2 => case LeverM1 => case Lever0 => case LeverP1 => case LeverP2 =>
    }
    while remaining != {}
      invariant forall b :: b in remaining || Event(LeverKey(Some(b)), false) in added
      invariant forall i :: 0 <= i < |added| ==>
        !added[i].visible && added[i].key.LeverKey? && added[i].key.img.Some? && added[i].key.img.value !in remaining
      invariant NoDup(added)
      invariant |added| + |remaining| == 5
      decreases |remaining|
    {
      var b :| b in remaining;
      added := added + [Event(LeverKey(Some(b)), false)];
      remaining := remaining - {b};
    }
    r := events + added;
    assert r[..|events|] == events && r[|events|..] == added;
  }

  /** The running sum of the release flags over a prefix of the dictionary
      order: the loop invariant of `HoldCounts`, whose totals over each hand
      are `Translator.LeftCount` and `Translator.RightCount`. */
  function CountIn(release: map<Button, int>, bs: seq<Button>): int
    requires forall b :: b in release
  {
    if |bs| == 0 then 0 else CountIn(release, bs[..|bs| - 1]) + release[bs[|bs| - 1]]
  }

  lemma CountFour(release: map<Button, int>, a: Button, b: Button, c: Button, d: Button)
    requires forall x :: x in release
    ensures CountIn(release, [a, b, c, d]) == release[a] + release[b] + release[c] + release[d]
  {
    assert [a, b, c, d][..3] == [a, b, c];
    assert [a, b, c][..2] == [a, b];
    assert [a, b][..1] == [a];
    assert [a][..0] == [];
    assert CountIn(release, [a]) == release[a];
    assert CountIn(release, [a, b]) == release[a] + release[b];
    assert CountIn(release, [a, b, c]) == release[a] + release[b] + release[c];
  }

  /** The five lever hides in one fixed order, standing for the batch
      `close_swing` would have produced when the lever did not move and
      `close_swing` is not called. */
  ghost function AnyCloseSwing(): (cs: seq<Event>)
    ensures IsCloseSwing(cs)
  {
    FixedCloseSwing();
    FixedOrder()
  }

  ghost function FixedOrder(): seq<Event> {
    [Event(LeverKey(Some(LeverM2)), false), Event(LeverKey(Some(LeverM1)), false),
     Event(LeverKey(Some(Lever0)), false), Event(LeverKey(Some(LeverP1)), false),
     Event(LeverKey(Some(LeverP2)), false)]
  }

  lemma FixedCloseSwing()
    ensures IsCloseSwing(FixedOrder())
  {
    var cs := FixedOrder();
    forall b ensures Event(LeverKey(Some(b)), false) in cs {
      match b
      case LeverM2 => assert cs[0] == Event(LeverKey(Some(b)), false);
      case LeverM1 => assert cs[1] == Event(LeverKey(Some(b)), false);
      case Lever0 => assert cs[2] == Event(LeverKey(Some(b)), false);
      case LeverP1 => assert cs[3] == Event(LeverKey(Some(b)), false);
      case LeverP2 => assert cs[4] == Event(LeverKey(Some(b)), false);
    }
  }

  class HidService {
    /** The thresholds computed from the configured extremes at load time. */
    const bd: Bounds
    /** `last_left_button_arr` / `last_right_button_arr`. */
    const leftArr: array<Slot>
    const rightArr: array<Slot>
    /** `release_button`. */
    var release: map<Button, int>
    /** `last_lever_pos` (`''` before the first reading). */
    var lastLeverPos: Option<int>
    var lastSubpos: int
    var isLeft: bool
    /** `is_show_bg_l0` / `is_show_bg_r0`. */
    var bgL0: bool
    var bgR0: bool
    /** `left_show` / `right_show`, the motion image shown per hand. */
    var leftShow: Option<Button>
    var rightShow: Option<Button>

    ghost predicate Valid()
      reads this
    {
      && leftArr.Length == 4 && rightArr.Length == 4 && leftArr != rightArr
      && (forall b :: b in release && (release[b] == 0 || release[b] == 1))
    }

    /** The class-level state as a value. */
    function Snapshot(): (st: State)
      reads this, leftArr, rightArr
    {
      State(release, leftArr[..], rightArr[..], lastLeverPos, lastSubpos, isLeft, bgL0, bgR0, leftShow, rightShow)
    }

    lemma SnapshotWellFormed()
      requires Valid()
      ensures WellFormed(Snapshot())
    {
    }

    /** Module load: thresholds from the configuration, class attributes
        at their initial values. */
    constructor(lMaxCfg: int, rMaxCfg: int)
      ensures Valid() && fresh(leftArr) && fresh(rightArr)
      ensures bd == Thresholds(lMaxCfg, rMaxCfg)
      ensures Snapshot() == Initial()
    {
      bd := Thresholds(lMaxCfg, rMaxCfg);
      OrdersCoverButtons();
      release := map b | b in AllButtons :: 0;
      leftArr := new Slot[4](_ => None);
      rightArr := new Slot[4](_ => None);
      lastLeverPos := None;
      lastSubpos := 0;
      isLeft := true;
      bgL0 := false;
      bgR0 := false;
      leftShow := None;
      rightShow := None;
      new;
      assert leftArr[..] == [None, None, None, None];
      assert rightArr[..] == [None, None, None, None];
    }

    /** The loop at the top of `show_lever`: whether some button of each
        hand is flagged held, walking `release_button` in its key order. */
    method HoldSides() returns (isL: bool, isR: bool)
      requires Valid()
      ensures isL == LeftHeld(Snapshot()) && isR == RightHeld(Snapshot())
    {
      isL, isR := false, false;
      var i := 0;
      while i < 8
        invariant 0 <= i <= 8
        invariant isL <==> exists j :: 0 <= j < i && j < 4 && release[DictOrder[j]] == 1
        invariant isR <==> exists j :: 4 <= j < i && release[DictOrder[j]] == 1
      {
        if i < 4 {
          if release[DictOrder[i]] == 1 {
            isL := true;
          }
        } else {
          if release[DictOrder[i]] == 1 {
            isR := true;
          }
        }
        i := i + 1;
      }
      assert DictOrder[0] == LW && DictOrder[1] == LR && DictOrder[2] == LG && DictOrder[3] == LB;
      assert DictOrder[4] == RR && DictOrder[5] == RG && DictOrder[6] == RB && DictOrder[7] == RW;
      assert isL <==> release[LW] == 1 || release[LR] == 1 || release[LG] == 1 || release[LB] == 1;
      assert isR <==> release[RR] == 1 || release[RG] == 1 || release[RB] == 1 || release[RW] == 1;
    }

    /** `l_flag` / `r_flag` at the end of a tick: the release flags summed
        over the first four and the last four keys of `release_button`. */
    method HoldCounts() returns (lFlag: int, rFlag: int)
      requires Valid()
      ensures lFlag == LeftCount(Snapshot()) && rFlag == RightCount(Snapshot())
    {
      lFlag, rFlag := 0, 0;
      var j := 0;
      while j < 8
        invariant 0 <= j <= 8
        invariant lFlag == CountIn(release, DictOrder[..if j < 4 then j else 4])
        invariant rFlag == if j <= 4 then 0 else CountIn(release, DictOrder[4..j])
      {
        if j < 4 {
          assert DictOrder[..j + 1][..j] == DictOrder[..j];
          lFlag := lFlag + release[DictOrder[j]];
        } else {
          assert DictOrder[4..j + 1][..j - 4] == DictOrder[4..j];
          rFlag := rFlag + release[DictOrder[j]];
        }
        j := j + 1;
      }
      assert DictOrder[..4] == [LW, LR, LG, LB];
      assert DictOrder[4..8] == [RR, RG, RB, RW];
      CountFour(release, LW, LR, LG, LB);
      CountFour(release, RR, RG, RB, RW);
    }

    /** The lever part of `show_lever`.  A moved lever: the five lever
        hides, the side images of the previous band hidden, then the
        arbitration between the hands; a lever at rest: the neutral image
        re-shown when the sub-position did not move either. */
    method ShowLever(position: int, subPos: int) returns (prev: Option<int>, events: seq<Event>, ghost cs: seq<Event>)
      requires Valid()
      modifies this
      ensures Valid() && IsCloseSwing(cs)
      ensures LeverOut(Snapshot(), prev, events) == LeverStep(old(Snapshot()), bd, position, subPos, cs)
    {
      prev := lastLeverPos;
      if lastLeverPos != Some(position) {
        events, cs := MoveLever(position);
      } else {
        cs := AnyCloseSwing();
        events := RestLever(subPos);
      }
    }

    /** The lever moved to a new raw position. */
    method MoveLever(position: int) returns (events: seq<Event>, ghost cs: seq<Event>)
      requires Valid() && lastLeverPos != Some(position)
      modifies this
      ensures Valid() && IsCloseSwing(cs)
      ensures LeverOut(Snapshot(), old(lastLeverPos), events) == LeverStep(old(Snapshot()), bd, position, lastSubpos, cs)
    {
      var img := GetPos(bd, position);
      var isL, isR := HoldSides();
      events := CloseSwing([]);
      cs := events;
      if lastLeverPos.Some? {
        var old_img := GetPos(bd, lastLeverPos.value);
        events := events + [Event(LeftLever(old_img), false), Event(RightLever(old_img), false)];
      }
      var tail := ApplyArbitration(isL, isR, img);
      events := events + tail;
      lastLeverPos := Some(position);
    }

    /** The lever stayed at its raw position. */
    method RestLever(subPos: int) returns (events: seq<Event>)
      requires Valid() && lastLeverPos.Some?
      modifies this
      ensures Valid()
      ensures forall cs :: LeverOut(Snapshot(), old(lastLeverPos), events)
                == LeverStep(old(Snapshot()), bd, old(lastLeverPos).value, subPos, cs)
    {
      events := [];
      if lastSubpos == subPos {
        var here := GetPos(bd, lastLeverPos.value);
        events := [Event(LeverKey(here), true)];
        bgR0 := true;
        bgL0 := true;
        events := events + [Event(LeftLever(here), false), Event(RightLever(here), false)];
      }
      lastSubpos := subPos;
    }

    /** The four arbitration cases of `show_lever` once the lever moved. */
    method ApplyArbitration(isL: bool, isR: bool, img: Option<Band>) returns (tail: seq<Event>)
      requires Valid()
      modifies this
      ensures Valid()
      ensures tail == ArbitrationEvents(Arbitrate(isL, isR, old(isLeft)), img)
      ensures Snapshot() == Arbitrated(old(Snapshot()), Arbitrate(isL, isR, old(isLeft)))
    {
      if isL && isR {
        tail := [Event(LeftLever(img), false), Event(RightLever(img), false), Event(LeverKey(img), true)];
      } else {
        tail := [Event(SwingBg, false)];
      }
      if isL && !isR {
        bgL0 := true;
        isLeft := false;
        tail := tail + [Event(LeverKey(img), false), Event(LeftLever(img), true), Event(RightLever(img), false)];
      } else {
        bgL0 := false;
      }
      if !isL && isR {
        bgR0 := true;
        isLeft := true;
        tail := tail + [Event(LeverKey(img), false), Event(LeftLever(img), false), Event(RightLever(img), true)];
      } else {
        bgR0 := false;
      }
      if !isL && !isR {
        if isLeft {
          bgR0 := true;
          tail := tail + [Event(LeverKey(img), false), Event(RightLever(img), true)];
        } else {
          bgL0 := true;
          tail := tail + [Event(LeverKey(img), false), Event(LeftLever(img), true)];
        }
      }
    }

    /** `m_press`: flag the button held, hide the opposite lever image if
        the lever moved in this tick, hide the own background, show the
        button and its motion image, hide the motion images already held
        on that hand (last cell first), and take the first empty cell. */
    method MPress(k: Button, prev: Option<int>) returns (events: seq<Event>)
      requires Valid() && (prev != lastLeverPos ==> lastLeverPos.Some?)
      modifies this, leftArr, rightArr
      ensures Valid()
      ensures Step(Snapshot(), events) == PressSpec(old(Snapshot()), bd, k, prev)
    {
      ghost var st0 := Snapshot();
      var left := IsLeft(k);
      ghost var arr0 := Hand(st0, left);
      ghost var leverHide: seq<Event> :=
        if prev == st0.lastLeverPos then []
        else if left then [Event(RightLever(GetPos(bd, st0.lastLeverPos.value)), false)]
        else [Event(LeftLever(GetPos(bd, st0.lastLeverPos.value)), false)];
      release := release[k := 1];
      events := [];
      if left {
        if prev != lastLeverPos {
          events := events + [Event(RightLever(GetPos(bd, lastLeverPos.value)), false)];
        }
        events := events + [Event(LeftBg, false)];
      } else {
        if prev != lastLeverPos {
          events := events + [Event(LeftLever(GetPos(bd, lastLeverPos.value)), false)];
        }
        events := events + [Event(RightBg, false)];
      }
      events := events + [Event(ButtonKey(k), true), Event(MotionKey(k), true)];
      assert events == leverHide + [Event(if left then LeftBg else RightBg, false), Event(ButtonKey(k), true), Event(MotionKey(k), true)];
      var arr := if left then leftArr else rightArr;
      if left {
        leftShow := Some(k);
      } else {
        rightShow := Some(k);
      }
      assert arr[..] == arr0;
      var hides := HideHeldMotions(arr);
      events := events + hides;
      assert events == PressBatch(leverHide, arr0, k);
      FillFirstEmpty(arr, k);
      assert arr[..] == InsertFirstEmpty(arr0, k);
      assert (if left then rightArr else leftArr)[..] == Hand(st0, !left);
    }

    /** `m_release`: for a held button, scan its hand's cells: the cell
        holding it is cleared (promoting the motion image of the button
        before it, or re-showing the newest one when it sat in cell 0),
        every other cell resets the held flag and hides the button and its
        motion image; then, with one button left on the hand, show its
        motion image. */
    method MRelease(k: Button) returns (events: seq<Event>)
      requires Valid()
      modifies this, leftArr, rightArr
      ensures Valid()
      ensures Step(Snapshot(), events) == ReleaseSpec(old(Snapshot()), k)
    {
      events := [];
      if release[k] != 1 {
        return;
      }
      ghost var sc := ReleaseScanOf(Snapshot(), k);
      events := ReleaseCells(k);
      var buttonArr := if IsLeft(k) then leftArr else rightArr;
      assert buttonArr[..] == sc.arr;
      var nullCount, last := CountEmpty(buttonArr);
      if nullCount == 3 {
        events := events + [Event(MotionKey(buttonArr[last].value), true)];
      }
    }

    /** The slot scan of `m_release` on a held button, with the release
        flag and the hand's shown motion image it leaves. */
    method ReleaseCells(k: Button) returns (scanned: seq<Event>)
      requires Valid() && release[k] == 1
      modifies this, leftArr, rightArr
      ensures Valid()
      ensures var s := ReleaseScanOf(old(Snapshot()), k);
        && scanned == s.events
        && Snapshot() == WithHand(old(Snapshot()), IsLeft(k), s.arr, if s.held then old(release) else old(release)[k := 0], s.shown)
    {
      ghost var st0 := Snapshot();
      var left := IsLeft(k);
      var buttonArr := if left then leftArr else rightArr;
      var show := if left then leftShow else rightShow;
      var held, shown;
      held, shown, scanned := ScanCells(buttonArr, k, show);
      if !held {
        release := release[k := 0];
      }
      if left {
        leftShow := shown;
      } else {
        rightShow := shown;
      }
    }

    /** The hardware path of `process_structured_hid_data`: the lever part
        of `show_lever`, the decode of the report, `m_press` or `m_release`
        for each button in the tick's order, and the background tail.  A
        message without a lever reading fails before any change; a digit
        string that does not decode fails after the lever part has run. */
    method ProcessStructuredHidData(input: HidInput) returns (events: seq<Event>, ghost cs: seq<Event>)
      requires Valid()
      modifies this, leftArr, rightArr
      ensures Valid() && IsCloseSwing(cs)
      ensures Step(Snapshot(), events) == TickSpec(old(Snapshot()), bd, input, cs)
    {
      ghost var st0 := Snapshot();
      var lever := LeverInput(input);
      if lever.None? {
        events := [];
        cs := AnyCloseSwing();
        return;
      }
      var position := lever.value.0;
      var subPos := SubPosition(lever.value.1);
      var prev, leverEvents;
      prev, leverEvents, cs := ShowLever(position, subPos);
      assert TickSpec(st0, bd, input, cs) == TickOn(st0, bd, position, subPos, PressedSet(input), cs);
      var decoded := DecodePressed(input);
      events := FinishTick(decoded, PressedSet(input), prev, leverEvents);
    }

    /** The rest of a tick once the lever is shown and the report decoded
        (a report that does not decode ends the tick with nothing sent):
        the per-button loop, then the background bookkeeping. */
    method FinishTick(decoded: Result<seq<Button>>, ghost dec: Result<set<Button>>, prev: Option<int>, leverEvents: seq<Event>)
      returns (events: seq<Event>)
      requires Valid() && lastLeverPos.Some?
      requires decoded.Ok? <==> dec.Ok?
      requires decoded.Ok? ==> forall b :: b in decoded.value <==> b in dec.value
      modifies this, leftArr, rightArr
      ensures Valid()
      ensures Step(Snapshot(), events) == Finish(LeverOut(old(Snapshot()), prev, leverEvents), bd, dec)
    {
      SnapshotWellFormed();
      if decoded.Err? {
        events := [];
        return;
      }
      events := ButtonsPass(prev, decoded.value, dec.value, leverEvents);
      var tail := BackgroundTail();
      events := events + tail;
    }

    /** The background bookkeeping at the end of a tick: `l_0` / `r_0`
        shown for a hand that holds nothing, then hidden again for a hand
        whose flag is down. */
    method BackgroundTail() returns (tail: seq<Event>)
      requires Valid()
      ensures tail == BgTail(Snapshot())
    {
      var lFlag, rFlag := HoldCounts();
      tail := [];
      if lFlag == 0 {
        tail := tail + [Event(LeftBg, true)];
      }
      if rFlag == 0 {
        tail := tail + [Event(RightBg, true)];
      }
      if !bgL0 {
        tail := tail + [Event(LeftBg, false)];
      }
      if !bgR0 {
        tail := tail + [Event(RightBg, false)];
      }
    }

    /** The per-button loop of a tick. */
    method ButtonsPass(prev: Option<int>, pressed: seq<Button>, ghost pressedSet: set<Button>, leverEvents: seq<Event>)
      returns (events: seq<Event>)
      requires Valid() && lastLeverPos.Some?
      requires forall b :: b in pressed <==> b in pressedSet
      modifies this, leftArr, rightArr
      ensures Valid()
      ensures Step(Snapshot(), events) == ButtonsLoop(old(Snapshot()), bd, prev, pressedSet, 0, leverEvents)
    {
      SnapshotWellFormed();
      ghost var goal := ButtonsLoop(Snapshot(), bd, prev, pressedSet, 0, leverEvents);
      events := leverEvents;
      var i: nat := 0;
      while i < 8
        invariant i <= 8 && Valid() && lastLeverPos.Some?
        invariant WellFormed(Snapshot())
        invariant ButtonsLoop(Snapshot(), bd, prev, pressedSet, i, events) == goal
      {
        ButtonsLoopTurn(Snapshot(), bd, prev, pressedSet, i, events);
        var more := ButtonTurn(TickOrder[i], prev, pressed, pressedSet);
        events := events + more;
        i := i + 1;
      }
    }

    /** One button of the tick: pressed and not yet held goes through
        `m_press`, pressed and held is skipped, not pressed goes through
        `m_release`. */
    method ButtonTurn(b: Button, prev: Option<int>, pressed: seq<Button>, ghost pressedSet: set<Button>)
      returns (events: seq<Event>)
      requires Valid() && lastLeverPos.Some?
      requires forall b :: b in pressed <==> b in pressedSet
      modifies this, leftArr, rightArr
      ensures Valid()
      ensures Step(Snapshot(), events) == ButtonEdge(old(Snapshot()), bd, prev, pressedSet, b)
    {
      if b in pressed {
        if release[b] != 1 {
          events := MPress(b, prev);
        } else {
          events := [];
        }
      } else {
        events := MRelease(b);
      }
    }
  }

  /** The key decode inside `show_lever`: the io4 switch words, or the
      digit string of an ontroller / nageki report in its device's table
      (no device name: no buttons). */
  method DecodePressed(input: HidInput) returns (r: Result<seq<Button>>)
    ensures r.Ok? <==> PressedSet(input).Ok?
    ensures r.Err? ==> r.error == ValueError
    ensures r.Ok? ==> forall b :: b in r.value <==> b in PressedSet(input).value
  {
    match input {
      case Io4(rep) =>
        var pressed := DecodeIo4(rep.switches[0], rep.switches[1], rep.systemStatus);
        OrdersCoverButtons();
        r := Ok(pressed);
      case Keyed(device, _, _, key, idk) =>
        if device == Unnamed {
          r := Ok([]);
        } else {
          r := DecodeKeyString(key, KeyMapFor(device, idk));
        }
    }
  }

  /** The cell loop of `m_release` on one hand's array, with `show` the
      motion image recorded before the loop: returns whether the held flag
      survived, the motion image recorded afterwards and the events. */
  method ScanCells(buttonArr: array<Slot>, k: Button, show: Option<Button>) returns (held: bool, shown: Option<Button>, events: seq<Event>)
    requires buttonArr.Length == 4
    modifies buttonArr
    ensures Scan(buttonArr[..], held, shown, events) == ReleaseScan(k, show, 0, Scan(old(buttonArr[..]), true, show, []))
  {
    held, shown, events := true, show, [];
    var a := 0;
    while a < 4
      invariant 0 <= a <= 4
      invariant ReleaseScan(k, show, a, Scan(buttonArr[..], held, shown, events))
             == ReleaseScan(k, show, 0, Scan(old(buttonArr[..]), true, show, []))
    {
      if buttonArr[a] == Some(k) {
        if a > 0 {
          var before := buttonArr[a - 1];
          if before.Some? && show != before && show.Some? {
            events := events + [Event(MotionKey(show.value), false), Event(MotionKey(before.value), true)];
            shown := before;
            events := events + [Event(MotionKey(k), false)];
            buttonArr[a] := None;
            return;
          }
        } else {
          var newest := NewestHeldMotion(buttonArr);
          events := events + newest;
        }
        buttonArr[a] := None;
      } else {
        held := false;
        events := events + [Event(ButtonKey(k), false), Event(MotionKey(k), false)];
      }
      a := a + 1;
    }
  }

  /** The reversed loop of `m_press` over a hand's cells: a hide for the
      motion image of every occupied cell, last cell first. */
  method HideHeldMotions(arr: array<Slot>) returns (r: seq<Event>)
    requires arr.Length == 4
    ensures r == HideMotions(arr[..], 4)
  {
    r := [];
    var le := 4;
    while le > 0
      invariant 0 <= le <= 4
      invariant r + HideMotions(arr[..], le) == HideMotions(arr[..], 4)
    {
      le := le - 1;
      var head := if arr[le].Some? then [Event(MotionKey(arr[le].value), false)] else [];
      ghost var rest := HideMotions(arr[..], le);
      assert HideMotions(arr[..], le + 1) == head + rest;
      assert r + (head + rest) == (r + head) + rest;
      r := r + head;
    }
    assert r + [] == r;
  }

  /** The reversed scan of `m_release` for a button released from cell 0:
      show the motion image of the newest occupied cell, if any. */
  method NewestHeldMotion(arr: array<Slot>) returns (r: seq<Event>)
    requires arr.Length == 4
    ensures r == NewestMotion(arr[..], 4)
  {
    r := [];
    var b := 4;
    while b > 0
      invariant 0 <= b <= 4
      invariant NewestMotion(arr[..], 4) == NewestMotion(arr[..], b)
    {
      b := b - 1;
      if arr[b].Some? {
        r := [Event(MotionKey(arr[b].value), true)];
        return;
      }
    }
  }

  /** The counting loop at the end of `m_release`: `null_count` and the
      index of the last occupied cell. */
  method CountEmpty(arr: array<Slot>) returns (nullCount: nat, last: nat)
    requires arr.Length == 4
    ensures nullCount == EmptyCount(arr[..], 4)
    ensures last == LastOccupied(arr[..], 4)
  {
    nullCount, last := 0, 0;
    var h := 0;
    while h < 4
      invariant 0 <= h <= 4
      invariant nullCount == EmptyCount(arr[..], h)
      invariant last == LastOccupied(arr[..], h)
    {
      if arr[h].None? {
        nullCount := nullCount + 1;
      } else {
        last := h;
      }
      h := h + 1;
    }
  }

  /** Record a press in the first empty cell; a full hand stays as it is. */
  method FillFirstEmpty(arr: array<Slot>, k: Button)
    requires arr.Length == 4
    modifies arr
    ensures arr[..] == InsertFirstEmpty(old(arr[..]), k)
  {
    var i := 0;
    while i < arr.Length
      invariant 0 <= i <= arr.Length
      invariant arr[..] == old(arr[..])
      invariant FirstEmpty(arr[..], 0) == FirstEmpty(arr[..], i)
    {
      if arr[i].None? {
        arr[i] := Some(k);
        return;
      }
      i := i + 1;
    }
  }
}
