/** The input-state translator of `HIDService`, as functions on a value
    snapshot of its class-level state.  Each function is the specification
    that one method of the `Service.HidService` class is proved to
    implement; the lemmas below state what the batches mean for a display
    client (last write wins) and which invariants a tick keeps. */
module Translator {
  import opened Wire
  import opened Lever
  import opened Buttons
  import opened Overlay
  import HidReader

  /** A cell of a per-hand hold array: `""` (None) or a button id. */
  type Slot = Option<Button>

  /** The class-level fields of `HIDService` that the hardware path reads
      or writes.  `release` is `release_button` (0 or 1 per button),
      `left`/`right` the two 4-slot hold arrays, `leftShow`/`rightShow`
      the motion image last shown per hand (`""` is None). */
  datatype State = State(
    release: map<Button, int>,
    left: seq<Slot>,
    right: seq<Slot>,
    lastLeverPos: Option<int>,
    lastSubpos: int,
    isLeft: bool,
    bgL0: bool,
    bgR0: bool,
    leftShow: Option<Button>,
    rightShow: Option<Button>)

  predicate WellFormed(st: State) {
    && (forall b :: b in st.release && (st.release[b] == 0 || st.release[b] == 1))
    && |st.left| == 4 && |st.right| == 4
  }

  /** The values the class attributes start with. */
  function Initial(): (st: State)
    ensures WellFormed(st)
  {
    OrdersCoverButtons();
    State(map b | b in AllButtons :: 0, [None, None, None, None], [None, None, None, None],
          None, 0, true, false, false, None, None)
  }

  predicate Held(st: State, b: Button)
    requires WellFormed(st)
  {
    st.release[b] == 1
  }

  function Hand(st: State, left: bool): seq<Slot> {
    if left then st.left else st.right
  }

  /** `l_flag` / `r_flag`: the sums of `release_button` over each half of
      the dictionary. */
  function LeftCount(st: State): int
    requires WellFormed(st)
  {
    st.release[LW] + st.release[LR] + st.release[LG] + st.release[LB]
  }

  function RightCount(st: State): int
    requires WellFormed(st)
  {
    st.release[RR] + st.release[RG] + st.release[RB] + st.release[RW]
  }

  predicate LeftHeld(st: State)
    requires WellFormed(st)
  {
    LeftCount(st) != 0
  }

  predicate RightHeld(st: State)
    requires WellFormed(st)
  {
    RightCount(st) != 0
  }

  /** A hand holds something exactly when one of its buttons is held. */
  lemma HeldSides(st: State)
    requires WellFormed(st)
    ensures LeftHeld(st) <==> exists b :: IsLeft(b) && Held(st, b)
    ensures RightHeld(st) <==> exists b :: !IsLeft(b) && Held(st, b)
  {
    if LeftHeld(st) {
      assert Held(st, LW) || Held(st, LR) || Held(st, LG) || Held(st, LB);
    }
    if RightHeld(st) {
      assert Held(st, RR) || Held(st, RG) || Held(st, RB) || Held(st, RW);
    }
    forall b | Held(st, b) ensures IsLeft(b) ==> LeftHeld(st) ensures !IsLeft(b) ==> RightHeld(st) {
      match b
      case LW => case LR => case LG => case LB =>
      case RR => case RG => case RB => case RW =>
    }
  }

  /** A hold array of one hand: four cells, only that hand's buttons, none twice. */
  predicate HandOk(arr: seq<Slot>, left: bool) {
    && |arr| == 4
    && (forall i :: 0 <= i < 4 && arr[i].Some? ==> IsLeft(arr[i].value) == left)
    && (forall i, j :: 0 <= i < j < 4 && arr[i].Some? ==> arr[i] != arr[j])
  }

  /** The hold bookkeeping agrees with itself: a button is flagged held
      exactly when it sits in a cell of its own hand's array, and it sits
      there at most once. */
  predicate Consistent(st: State) {
    && WellFormed(st)
    && HandOk(st.left, true)
    && HandOk(st.right, false)
    && (forall b :: Held(st, b) <==> Some(b) in Hand(st, IsLeft(b)))
  }

  lemma InitialConsistent()
    ensures Consistent(Initial())
    ensures forall b :: !Held(Initial(), b)
  {
    OrdersCoverButtons();
  }

  // ---- lever visibility arbitration (show_lever) ----

  /** Who occludes the lever when the lever moves. */
  datatype Arbitration = BothHeld | LeftOnly | RightOnly | NeitherSticky(isLeft: bool)

  function Arbitrate(isL: bool, isR: bool, isLeft: bool): Arbitration {
    if isL && isR then BothHeld
    else if isL then LeftOnly
    else if isR then RightOnly
    else NeitherSticky(isLeft)
  }

  /** The events that follow the stale-image hides when the lever moved. */
  function ArbitrationEvents(arb: Arbitration, img: Option<Band>): (r: seq<Event>)
    ensures forall i :: 0 <= i < |r| ==> LeverFamily(r[i].key) || r[i].key == SwingBg
  {
    match arb
    case BothHeld =>
      [Event(LeftLever(img), false), Event(RightLever(img), false), Event(LeverKey(img), true)]
    case LeftOnly =>
      [Event(SwingBg, false), Event(LeverKey(img), false), Event(LeftLever(img), true), Event(RightLever(img), false)]
    case RightOnly =>
      [Event(SwingBg, false), Event(LeverKey(img), false), Event(LeftLever(img), false), Event(RightLever(img), true)]
    case NeitherSticky(isLeft) =>
      if isLeft then [Event(SwingBg, false), Event(LeverKey(img), false), Event(RightLever(img), true)]
      else [Event(SwingBg, false), Event(LeverKey(img), false), Event(LeftLever(img), true)]
  }

  /** The lever image each arbitration outcome leaves visible. */
  function Shown(arb: Arbitration, img: Option<Band>): Key {
    match arb
    case BothHeld => LeverKey(img)
    case LeftOnly => LeftLever(img)
    case RightOnly => RightLever(img)
    case NeitherSticky(isLeft) => if isLeft then RightLever(img) else LeftLever(img)
  }

  predicate LeverFamily(k: Key) {
    k.LeverKey? || k.LeftLever? || k.RightLever?
  }

  /** `close_swing`: a hide for each of the five lever images, in the
      (unspecified) iteration order of a Python set. */
  predicate IsCloseSwing(cs: seq<Event>) {
    && |cs| == 5
    && (forall i :: 0 <= i < 5 ==> !cs[i].visible && cs[i].key.LeverKey? && cs[i].key.img.Some?)
    && (forall b :: Event(LeverKey(Some(b)), false) in cs)
  }

  /** The background flags and the sticky side after arbitration: a hand
      that holds something while the other does not gets its background
      flag, and the lever switches to the other side next time. */
  function Arbitrated(st: State, arb: Arbitration): (r: State)
    ensures r.(bgL0 := st.bgL0, bgR0 := st.bgR0, isLeft := st.isLeft) == st
    ensures arb.BothHeld? ==> !r.bgL0 && !r.bgR0
    ensures arb.LeftOnly? ==> r.bgL0 && !r.bgR0 && !r.isLeft
    ensures arb.RightOnly? ==> !r.bgL0 && r.bgR0 && r.isLeft
    ensures arb.NeitherSticky? ==> r.bgL0 == !arb.isLeft && r.bgR0 == arb.isLeft && r.isLeft == st.isLeft
  {
    match arb
    case BothHeld => st.(bgL0 := false, bgR0 := false)
    case LeftOnly => st.(bgL0 := true, bgR0 := false, isLeft := false)
    case RightOnly => st.(bgL0 := false, bgR0 := true, isLeft := true)
    case NeitherSticky(isLeft) => if isLeft then st.(bgL0 := false, bgR0 := true) else st.(bgL0 := true, bgR0 := false)
  }

  datatype LeverOut = LeverOut(st: State, prev: Option<int>, events: seq<Event>)

  /** `show_lever` on the raw position and the sub-position: when the raw
      position changed, hide the stale images and arbitrate; otherwise
      re-show the neutral image if the sub-position did not move either. */
  function LeverStep(st: State, bd: Bounds, position: int, subPos: int, cs: seq<Event>): (r: LeverOut)
    requires WellFormed(st)
    ensures WellFormed(r.st) && r.st.lastLeverPos == Some(position) && r.prev == st.lastLeverPos
  {
    var img := GetPos(bd, position);
    var prev := st.lastLeverPos;
    if prev != Some(position) then
      var stale :=
        if prev.Some? then [Event(LeftLever(GetPos(bd, prev.value)), false), Event(RightLever(GetPos(bd, prev.value)), false)]
        else [];
      var arb := Arbitrate(LeftHeld(st), RightHeld(st), st.isLeft);
      LeverOut(Arbitrated(st, arb).(lastLeverPos := Some(position)), prev, cs + stale + ArbitrationEvents(arb, img))
    else if st.lastSubpos == subPos then
      // the previous position equals the current one, so its image is `img`
      LeverOut(st.(bgL0 := true, bgR0 := true, lastSubpos := subPos), prev,
               [Event(LeverKey(img), true), Event(LeftLever(img), false), Event(RightLever(img), false)])
    else
      LeverOut(st.(lastSubpos := subPos), prev, [])
  }

  lemma CloseSwingWrites(cs: seq<Event>, k: Key)
    requires IsCloseSwing(cs)
    ensures LastWrite(cs, k) == if k.LeverKey? && k.img.Some? then Some(false) else None
  {
    LastWriteNone(cs, k);
    LastWriteFrom(cs, k);
    if k.LeverKey? && k.img.Some? {
      assert Event(LeverKey(Some(k.img.value)), false) in cs;
    }
  }

  /** Of the arbitration events, exactly the chosen image ends visible. */
  lemma ArbitrationWrites(arb: Arbitration, img: Option<Band>, k: Key)
    ensures LastWrite(ArbitrationEvents(arb, img), k) == Some(true) <==> k == Shown(arb, img)
  {
    var t := ArbitrationEvents(arb, img);
    LastWriteFrom(t, k);
    if k == Shown(arb, img) {
      match arb
      case BothHeld => LastWriteAt(t, k, 2);
      case LeftOnly => LastWriteAt(t, k, 2);
      case RightOnly => LastWriteAt(t, k, 3);
      case NeitherSticky(_) => LastWriteAt(t, k, 2);
    }
  }

  /** When the raw position moved: every lever image of every band and the
      side images of the previous band are written, and exactly one lever
      image, the one arbitration picks, is left visible. */
  lemma LeverMoved(st: State, bd: Bounds, position: int, subPos: int, cs: seq<Event>)
    requires WellFormed(st) && IsCloseSwing(cs)
    requires st.lastLeverPos != Some(position)
    ensures var r := LeverStep(st, bd, position, subPos, cs);
      var arb := Arbitrate(LeftHeld(st), RightHeld(st), st.isLeft);
      && r.prev == st.lastLeverPos
      && r.st == Arbitrated(st, arb).(lastLeverPos := Some(position))
      && (forall k :: LeverFamily(k) && LastWrite(r.events, k) == Some(true) <==> k == Shown(arb, GetPos(bd, position)))
      && (forall b :: LastWrite(r.events, LeverKey(Some(b))).Some?)
      && (st.lastLeverPos.Some? ==>
            LastWrite(r.events, LeftLever(GetPos(bd, st.lastLeverPos.value))).Some?
            && LastWrite(r.events, RightLever(GetPos(bd, st.lastLeverPos.value))).Some?)
  {
    var r := LeverStep(st, bd, position, subPos, cs);
    var img := GetPos(bd, position);
    var arb := Arbitrate(LeftHeld(st), RightHeld(st), st.isLeft);
    var prev := st.lastLeverPos;
    var stale :=
      if prev.Some? then [Event(LeftLever(GetPos(bd, prev.value)), false), Event(RightLever(GetPos(bd, prev.value)), false)]
      else [];
    var tail := ArbitrationEvents(arb, img);
    assert r.events == (cs + stale) + tail;
    forall k ensures LastWrite(r.events, k) == Some(true) <==> LastWrite(tail, k) == Some(true) {
      LastWriteAppend(cs + stale, tail, k);
      HidesOnly(cs + stale, k);
    }
    forall k ensures LastWrite(tail, k) == Some(true) <==> k == Shown(arb, img) {
      ArbitrationWrites(arb, img, k);
    }
    forall b ensures LastWrite(r.events, LeverKey(Some(b))).Some? {
      LastWriteNone(r.events, LeverKey(Some(b)));
      var i :| 0 <= i < |cs| && cs[i] == Event(LeverKey(Some(b)), false);
      assert r.events[i] == cs[i];
    }
    if prev.Some? {
      LastWriteNone(r.events, LeftLever(GetPos(bd, prev.value)));
      LastWriteNone(r.events, RightLever(GetPos(bd, prev.value)));
      assert r.events[|cs|] == stale[0] && r.events[|cs| + 1] == stale[1];
    }
  }

  /** When the raw position did not move: only the sub-position is
      recorded, and if it did not move either the neutral image is shown,
      both side images hidden and both background flags raised. */
  lemma LeverStill(st: State, bd: Bounds, position: int, subPos: int, cs: seq<Event>)
    requires WellFormed(st)
    requires st.lastLeverPos == Some(position)
    ensures var r := LeverStep(st, bd, position, subPos, cs);
      var img := GetPos(bd, position);
      && r.st.lastSubpos == subPos
      && r.st.(bgL0 := st.bgL0, bgR0 := st.bgR0, lastSubpos := st.lastSubpos) == st
      && (st.lastSubpos == subPos ==>
            r.st.bgL0 && r.st.bgR0
            && LastWrite(r.events, LeverKey(img)) == Some(true)
            && LastWrite(r.events, LeftLever(img)) == Some(false)
            && LastWrite(r.events, RightLever(img)) == Some(false))
      && (st.lastSubpos != subPos ==> r.events == [] && r.st == st.(lastSubpos := subPos))
  {
    var r := LeverStep(st, bd, position, subPos, cs);
    if st.lastSubpos == subPos {
      var img := GetPos(bd, position);
      LastWriteAt(r.events, LeverKey(img), 0);
      LastWriteAt(r.events, LeftLever(img), 1);
      LastWriteAt(r.events, RightLever(img), 2);
    }
  }

  /** Lever steps touch only the lever images and the swing background,
      and never the hold bookkeeping. */
  lemma LeverStepFrame(st: State, bd: Bounds, position: int, subPos: int, cs: seq<Event>)
    requires WellFormed(st) && IsCloseSwing(cs)
    ensures var r := LeverStep(st, bd, position, subPos, cs);
      && r.st.release == st.release && r.st.left == st.left && r.st.right == st.right
      && r.st.leftShow == st.leftShow && r.st.rightShow == st.rightShow
      && r.st.lastLeverPos == Some(position)
      && (forall i :: 0 <= i < |r.events| ==> LeverFamily(r.events[i].key) || r.events[i].key == SwingBg)
      && (r.st.lastSubpos == subPos || !(r.st.bgL0 && r.st.bgR0))
  {
    var r := LeverStep(st, bd, position, subPos, cs);
    if st.lastLeverPos != Some(position) {
      var prev := st.lastLeverPos;
      var stale :=
        if prev.Some? then [Event(LeftLever(GetPos(bd, prev.value)), false), Event(RightLever(GetPos(bd, prev.value)), false)]
        else [];
      var tail := ArbitrationEvents(Arbitrate(LeftHeld(st), RightHeld(st), st.isLeft), GetPos(bd, position));
      assert r.events == cs + stale + tail;
      forall i | 0 <= i < |r.events| ensures LeverFamily(r.events[i].key) || r.events[i].key == SwingBg {
        if i < |cs| {
          assert r.events[i] == cs[i];
        } else if i < |cs| + |stale| {
          assert r.events[i] == stale[i - |cs|];
        } else {
          assert r.events[i] == tail[i - |cs| - |stale|];
        }
      }
    }
  }

  // ---- pressing a button (m_press) ----

  /** Hides of the motion images of the cells `n - 1` down to 0. */
  function HideMotions(arr: seq<Slot>, n: nat): (r: seq<Event>)
    requires n <= |arr|
    ensures forall i :: 0 <= i < |r| ==>
              r[i].key.MotionKey? && !r[i].visible && Some(r[i].key.button) in arr[..n]
  {
    if n == 0 then []
    else
      (match arr[n - 1] case Some(b) => [Event(MotionKey(b), false)] case None => [])
      + HideMotions(arr, n - 1)
  }

  lemma {:induction false} HideMotionsWrites(arr: seq<Slot>, n: nat, b: Button)
    requires n <= |arr|
    ensures Some(b) in arr[..n] ==> LastWrite(HideMotions(arr, n), MotionKey(b)) == Some(false)
    ensures Some(b) !in arr[..n] ==> LastWrite(HideMotions(arr, n), MotionKey(b)) == None
  {
    var r := HideMotions(arr, n);
    LastWriteNone(r, MotionKey(b));
    if n > 0 {
      assert arr[..n] == arr[..n - 1] + [arr[n - 1]];
      var head := match arr[n - 1] case Some(c) => [Event(MotionKey(c), false)] case None => [];
      HideMotionsWrites(arr, n - 1, b);
      LastWriteAppend(head, HideMotions(arr, n - 1), MotionKey(b));
    }
  }

  /** The index of the first empty cell at or after `from`, or `|arr|`. */
  function FirstEmpty(arr: seq<Slot>, from: nat): (i: nat)
    requires from <= |arr|
    ensures from <= i <= |arr|
    ensures i < |arr| ==> arr[i].None?
    ensures forall j :: from <= j < i ==> arr[j].Some?
    decreases |arr| - from
  {
    if from == |arr| then from
    else if arr[from].None? then from
    else FirstEmpty(arr, from + 1)
  }

  /** Fill the first empty cell with `k`; a full array is left as it is. */
  function InsertFirstEmpty(arr: seq<Slot>, k: Button): (r: seq<Slot>)
    ensures |r| == |arr|
    ensures forall j :: 0 <= j < |arr| && arr[j].Some? ==> r[j] == arr[j]
    ensures None !in arr ==> r == arr
    ensures None in arr ==> exists i :: 0 <= i < |arr| && arr[i].None? && r == arr[i := Some(k)]
                                       && forall j :: 0 <= j < i ==> arr[j].Some?
  {
    var i := FirstEmpty(arr, 0);
    if i < |arr| then arr[i := Some(k)] else arr
  }

  datatype Step = Step(st: State, events: seq<Event>)

  /** `m_press`: flag the button held; if the lever moved in this tick,
      hide the opposite side's lever image; hide the own side's background;
      show the button and its motion image; hide the motion images of the
      buttons already held on that hand; record the button in the first
      empty cell of its hand. */
  function PressSpec(st: State, bd: Bounds, k: Button, prev: Option<int>): (r: Step)
    requires WellFormed(st)
    requires prev != st.lastLeverPos ==> st.lastLeverPos.Some?
    ensures WellFormed(r.st)
  {
    var left := IsLeft(k);
    var leverHide :=
      if prev == st.lastLeverPos then []
      else if left then [Event(RightLever(GetPos(bd, st.lastLeverPos.value)), false)]
      else [Event(LeftLever(GetPos(bd, st.lastLeverPos.value)), false)];
    var arr := Hand(st, left);
    var arr' := InsertFirstEmpty(arr, k);
    var rel := st.release[k := 1];
    if left then Step(st.(release := rel, leftShow := Some(k), left := arr'), PressBatch(leverHide, arr, k))
    else Step(st.(release := rel, rightShow := Some(k), right := arr'), PressBatch(leverHide, arr, k))
  }

  /** The events of a press after the lever hides: the own background
      hidden, the button and its motion image shown, then the motion
      images of the hand's cells hidden from the last cell down. */
  function PressBatch(leverHide: seq<Event>, arr: seq<Slot>, k: Button): seq<Event>
    requires |arr| == 4
  {
    leverHide
      + PressMid(k)
      + HideMotions(arr, 4)
  }

  /** Four distinct buttons of one hand use up that hand: if `k` is not
      among them, a cell is free. */
  lemma RoomForPress(arr: seq<Slot>, left: bool, k: Button)
    requires HandOk(arr, left) && IsLeft(k) == left && Some(k) !in arr
    ensures FirstEmpty(arr, 0) < 4
  {
    if FirstEmpty(arr, 0) == 4 {
      HandFull(arr, left);
    }
  }

  /** A hand array with no empty cell holds every button of its hand. */
  lemma HandFull(arr: seq<Slot>, left: bool)
    requires HandOk(arr, left) && forall i :: 0 <= i < 4 ==> arr[i].Some?
    ensures forall b :: IsLeft(b) == left ==> Some(b) in arr
  {
    var a, b, c, d := arr[0].value, arr[1].value, arr[2].value, arr[3].value;
    assert a != b && a != c && a != d && b != c && b != d && c != d;
    assert IsLeft(a) == left && IsLeft(b) == left && IsLeft(c) == left && IsLeft(d) == left;
    forall x | IsLeft(x) == left ensures x == a || x == b || x == c || x == d {
      match a
      case LW => case LR => case LG => case LB =>
      case RR => case RG => case RB => case RW =>
    }
    assert arr[0] == Some(a) && arr[1] == Some(b) && arr[2] == Some(c) && arr[3] == Some(d);
  }

  /** The press of a button not yet held, on the state: the bookkeeping
      stays consistent, only `k` changes its held flag, and only its hand's
      array changes, by filling the first empty cell. */
  lemma PressState(st: State, bd: Bounds, k: Button, prev: Option<int>)
    requires Consistent(st) && !Held(st, k)
    requires prev != st.lastLeverPos ==> st.lastLeverPos.Some?
    ensures var r := PressSpec(st, bd, k, prev);
      var arr := Hand(st, IsLeft(k));
      && Consistent(r.st)
      && Held(r.st, k)
      && (forall b :: b != k ==> (Held(r.st, b) <==> Held(st, b)))
      && FirstEmpty(arr, 0) < 4
      && Hand(r.st, IsLeft(k)) == arr[FirstEmpty(arr, 0) := Some(k)]
      && Hand(r.st, !IsLeft(k)) == Hand(st, !IsLeft(k))
      && r.st.(release := st.release, left := st.left, right := st.right, leftShow := st.leftShow, rightShow := st.rightShow) == st
  {
    var left := IsLeft(k);
    var arr := Hand(st, left);
    RoomForPress(arr, left, k);
    var r := PressSpec(st, bd, k, prev);
    var i := FirstEmpty(arr, 0);
    var arr' := arr[i := Some(k)];
    assert Hand(r.st, left) == arr';
    assert HandOk(arr', left);
    forall b ensures Held(r.st, b) <==> Some(b) in Hand(r.st, IsLeft(b)) {
      if IsLeft(b) == left && b != k {
        assert Some(b) in arr' <==> Some(b) in arr by {
          if Some(b) in arr' { var j :| 0 <= j < 4 && arr'[j] == Some(b); assert arr[j] == Some(b); }
          if Some(b) in arr { var j :| 0 <= j < 4 && arr[j] == Some(b); assert j != i && arr'[j] == Some(b); }
        }
      }
      if b == k {
        assert arr'[i] == Some(k);
      }
    }
  }

  /** What a press batch leaves visible, given lever hides that touch only
      the side lever images. */
  lemma PressBatchWrites(leverHide: seq<Event>, arr: seq<Slot>, k: Button)
    requires |arr| == 4 && Some(k) !in arr
    requires forall i :: 0 <= i < |leverHide| ==> leverHide[i].key.LeftLever? || leverHide[i].key.RightLever?
    ensures var e := PressBatch(leverHide, arr, k);
      && LastWrite(e, ButtonKey(k)) == Some(true)
      && LastWrite(e, MotionKey(k)) == Some(true)
      && (forall b :: Some(b) in arr ==> LastWrite(e, MotionKey(b)) == Some(false))
      && LastWrite(e, if IsLeft(k) then LeftBg else RightBg) == Some(false)
      && (forall b :: b != k ==> LastWrite(e, ButtonKey(b)).None?)
  {
    assert arr[..4] == arr;
    PressBatchOwn(leverHide, arr, k);
    forall b | Some(b) in arr ensures LastWrite(PressBatch(leverHide, arr, k), MotionKey(b)) == Some(false) {
      PressBatchHeld(leverHide, arr, k, b);
    }
    forall b | b != k ensures LastWrite(PressBatch(leverHide, arr, k), ButtonKey(b)).None? {
      PressBatchOther(leverHide, arr, k, b);
    }
  }

  /** The three middle events of a press batch. */
  function PressMid(k: Button): seq<Event> {
    [Event(if IsLeft(k) then LeftBg else RightBg, false), Event(ButtonKey(k), true), Event(MotionKey(k), true)]
  }

  lemma PressBatchOwn(leverHide: seq<Event>, arr: seq<Slot>, k: Button)
    requires |arr| == 4 && Some(k) !in arr[..4]
    ensures var e := PressBatch(leverHide, arr, k);
      && LastWrite(e, ButtonKey(k)) == Some(true)
      && LastWrite(e, MotionKey(k)) == Some(true)
      && LastWrite(e, if IsLeft(k) then LeftBg else RightBg) == Some(false)
  {
    var bg := if IsLeft(k) then LeftBg else RightBg;
    var mid := PressMid(k);
    var hides := HideMotions(arr, 4);
    assert PressBatch(leverHide, arr, k) == leverHide + mid + hides;
    LastWrite3(leverHide, mid, hides, bg);
    LastWrite3(leverHide, mid, hides, ButtonKey(k));
    LastWrite3(leverHide, mid, hides, MotionKey(k));
    LastWriteAt(mid, bg, 0);
    LastWriteAt(mid, ButtonKey(k), 1);
    LastWriteAt(mid, MotionKey(k), 2);
    LastWriteNone(hides, bg);
    LastWriteNone(hides, ButtonKey(k));
    HideMotionsWrites(arr, 4, k);
  }

  lemma PressBatchHeld(leverHide: seq<Event>, arr: seq<Slot>, k: Button, b: Button)
    requires |arr| == 4 && Some(b) in arr[..4]
    ensures LastWrite(PressBatch(leverHide, arr, k), MotionKey(b)) == Some(false)
  {
    var hides := HideMotions(arr, 4);
    assert PressBatch(leverHide, arr, k) == leverHide + PressMid(k) + hides;
    LastWrite3(leverHide, PressMid(k), hides, MotionKey(b));
    HideMotionsWrites(arr, 4, b);
  }

  lemma PressBatchOther(leverHide: seq<Event>, arr: seq<Slot>, k: Button, b: Button)
    requires |arr| == 4 && b != k
    requires forall i :: 0 <= i < |leverHide| ==> leverHide[i].key.LeftLever? || leverHide[i].key.RightLever?
    ensures LastWrite(PressBatch(leverHide, arr, k), ButtonKey(b)).None?
  {
    var mid := PressMid(k);
    var hides := HideMotions(arr, 4);
    assert PressBatch(leverHide, arr, k) == leverHide + mid + hides;
    LastWrite3(leverHide, mid, hides, ButtonKey(b));
    LastWriteNone(hides, ButtonKey(b));
    LastWriteNone(mid, ButtonKey(b));
    LastWriteNone(leverHide, ButtonKey(b));
  }

  /** Last-write-wins over a batch in three parts. */
  lemma LastWrite3(a: seq<Event>, b: seq<Event>, c: seq<Event>, key: Key)
    ensures LastWrite(a + b + c, key) ==
      if LastWrite(c, key).Some? then LastWrite(c, key)
      else if LastWrite(b, key).Some? then LastWrite(b, key)
      else LastWrite(a, key)
  {
    LastWriteAppend(a + b, c, key);
    LastWriteAppend(a, b, key);
  }

  /** The batch of a press: the button and its motion image end visible,
      every other motion image held on that hand and the own background
      end hidden, and no other button image is touched. */
  lemma PressEvents(st: State, bd: Bounds, k: Button, prev: Option<int>)
    requires Consistent(st) && !Held(st, k)
    requires prev != st.lastLeverPos ==> st.lastLeverPos.Some?
    ensures var r := PressSpec(st, bd, k, prev);
      && LastWrite(r.events, ButtonKey(k)) == Some(true)
      && LastWrite(r.events, MotionKey(k)) == Some(true)
      && (forall b :: b != k && Held(st, b) && IsLeft(b) == IsLeft(k) ==> LastWrite(r.events, MotionKey(b)) == Some(false))
      && LastWrite(r.events, if IsLeft(k) then LeftBg else RightBg) == Some(false)
      && (forall b :: b != k ==> LastWrite(r.events, ButtonKey(b)).None?)
  {
    var left := IsLeft(k);
    var leverHide :=
      if prev == st.lastLeverPos then []
      else if left then [Event(RightLever(GetPos(bd, st.lastLeverPos.value)), false)]
      else [Event(LeftLever(GetPos(bd, st.lastLeverPos.value)), false)];
    assert PressSpec(st, bd, k, prev).events == PressBatch(leverHide, Hand(st, left), k);
    PressBatchWrites(leverHide, Hand(st, left), k);
  }

  // ---- releasing a button (m_release) ----

  /** The state of the slot scan in `m_release`: the hand's array, whether
      `release_button[k]` is still 1, the motion image recorded as shown
      for that hand, and the events so far. */
  datatype Scan = Scan(arr: seq<Slot>, held: bool, shown: Option<Button>, events: seq<Event>)

  /** The reversed scan for the newest held cell: show its motion image. */
  function NewestMotion(arr: seq<Slot>, n: nat): (r: seq<Event>)
    requires n <= |arr|
    ensures |r| <= 1
    ensures forall i :: 0 <= i < |r| ==> r[i].key.MotionKey? && r[i].visible && Some(r[i].key.button) in arr[..n]
  {
    if n == 0 then []
    else if arr[n - 1].Some? then [Event(MotionKey(arr[n - 1].value), true)]
    else NewestMotion(arr, n - 1)
  }

  /** The cell loop of `m_release` from cell `a` on: a cell holding `k` is
      cleared (cell 0 first re-shows the newest motion image; a later cell
      promotes its predecessor's motion image and stops the loop when that
      is not the recorded one); every other cell visited resets the held
      flag and hides the button and its motion image again. */
  function ReleaseScan(k: Button, show: Option<Button>, a: nat, acc: Scan): (r: Scan)
    requires |acc.arr| == 4 && a <= 4
    ensures |r.arr| == 4
    decreases 4 - a
  {
    if a == 4 then acc
    else if acc.arr[a] == Some(k) then
      if a > 0 then
        var before := acc.arr[a - 1];
        if before.Some? && show != before && show.Some? then
          Scan(acc.arr[a := None], acc.held, before,
               acc.events + [Event(MotionKey(show.value), false), Event(MotionKey(before.value), true),
                             Event(MotionKey(k), false)])
        else
          ReleaseScan(k, show, a + 1, acc.(arr := acc.arr[a := None]))
      else
        ReleaseScan(k, show, a + 1, acc.(arr := acc.arr[a := None], events := acc.events + NewestMotion(acc.arr, 4)))
    else
      ReleaseScan(k, show, a + 1, acc.(held := false,
        events := acc.events + [Event(ButtonKey(k), false), Event(MotionKey(k), false)]))
  }

  /** `null_count`: the empty cells among the first `n`. */
  function EmptyCount(arr: seq<Slot>, n: nat): (c: nat)
    requires n <= |arr|
    ensures c <= n
    ensures c < n ==> exists i :: 0 <= i < n && arr[i].Some?
  {
    if n == 0 then 0 else EmptyCount(arr, n - 1) + (if arr[n - 1].None? then 1 else 0)
  }

  /** The `k` of the counting loop: the last occupied cell among the
      first `n` (0 if there is none). */
  function LastOccupied(arr: seq<Slot>, n: nat): (i: nat)
    requires n <= |arr|
    ensures (exists j :: 0 <= j < n && arr[j].Some?) ==> i < n && arr[i].Some?
    ensures i == 0 || i < n
  {
    if n == 0 then 0
    else if arr[n - 1].Some? then n - 1
    else LastOccupied(arr, n - 1)
  }

  /** `m_release`: nothing for a button that is not held; otherwise the
      cell scan, then, if exactly one cell of the hand is still occupied,
      show that button's motion image. */
  function ReleaseSpec(st: State, k: Button): (r: Step)
    requires WellFormed(st)
    ensures WellFormed(r.st)
  {
    if st.release[k] != 1 then Step(st, [])
    else
      var s := ReleaseScanOf(st, k);
      var rel := if s.held then st.release else st.release[k := 0];
      Step(WithHand(st, IsLeft(k), s.arr, rel, s.shown), s.events + LastOneShow(s.arr))
  }

  /** The motion image recorded as shown for the hand of `k`. */
  function ShowOf(st: State, k: Button): Option<Button> {
    if IsLeft(k) then st.leftShow else st.rightShow
  }

  /** The slot scan of `m_release` over the hand of `k`. */
  function ReleaseScanOf(st: State, k: Button): (s: Scan)
    requires WellFormed(st)
    ensures |s.arr| == 4
  {
    ReleaseScan(k, ShowOf(st, k), 0, Scan(Hand(st, IsLeft(k)), true, ShowOf(st, k), []))
  }

  /** The state with one hand's array, the release flags and that hand's
      shown motion image replaced. */
  function WithHand(st: State, left: bool, arr: seq<Slot>, rel: map<Button, int>, shown: Option<Button>): State {
    if left then st.(release := rel, left := arr, leftShow := shown)
    else st.(release := rel, right := arr, rightShow := shown)
  }

  /** The end of `m_release`: with three empty cells, show the motion
      image of the one button left. */
  function LastOneShow(arr: seq<Slot>): (r: seq<Event>)
    requires |arr| == 4
    ensures |r| <= 1
    ensures forall i :: 0 <= i < |r| ==> r[i].key.MotionKey? && Some(r[i].key.button) in arr
  {
    if EmptyCount(arr, 4) == 3 then [Event(MotionKey(arr[LastOccupied(arr, 4)].value), true)] else []
  }

  /** `n` pairs of hides of the button image and the motion image of `k`. */
  function Pairs(k: Button, n: nat): (r: seq<Event>)
    ensures |r| == 2 * n
    ensures forall i :: 0 <= i < |r| ==> !r[i].visible && (r[i].key == ButtonKey(k) || r[i].key == MotionKey(k))
  {
    if n == 0 then [] else Pairs(k, n - 1) + [Event(ButtonKey(k), false), Event(MotionKey(k), false)]
  }

  lemma PairsWrite(k: Button, n: nat, key: Key)
    requires n > 0
    ensures LastWrite(Pairs(k, n), key) == if key == ButtonKey(k) || key == MotionKey(k) then Some(false) else None
  {
    var p := Pairs(k, n);
    assert p == Pairs(k, n - 1) + [Event(ButtonKey(k), false), Event(MotionKey(k), false)];
    LastWriteAt(p, ButtonKey(k), 2 * n - 2);
    LastWriteAt(p, MotionKey(k), 2 * n - 1);
    LastWriteNone(p, key);
  }

  /** Cells without `k` only add hide pairs and reset the held flag. */
  lemma {:induction false} ScanNoMatch(k: Button, show: Option<Button>, a: nat, acc: Scan)
    requires |acc.arr| == 4 && a <= 4
    requires forall i :: a <= i < 4 ==> acc.arr[i] != Some(k)
    ensures ReleaseScan(k, show, a, acc) == acc.(held := acc.held && a == 4, events := acc.events + Pairs(k, 4 - a))
    decreases 4 - a
  {
    if a < 4 {
      var acc' := acc.(held := false, events := acc.events + [Event(ButtonKey(k), false), Event(MotionKey(k), false)]);
      ScanSkip(k, show, a, acc);
      ScanNoMatch(k, show, a + 1, acc');
      PairsPrepend(acc.events, k, 4 - a);
    } else {
      assert acc.events + Pairs(k, 0) == acc.events;
    }
  }

  lemma {:induction false} PairsCommute(k: Button, n: nat)
    ensures Pairs(k, n) + [Event(ButtonKey(k), false), Event(MotionKey(k), false)]
         == [Event(ButtonKey(k), false), Event(MotionKey(k), false)] + Pairs(k, n)
  {
    if n > 0 {
      PairsCommute(k, n - 1);
    }
  }

  /** A cell without `k` resets the held flag and hides the button and
      its motion image. */
  lemma ScanSkip(k: Button, show: Option<Button>, a: nat, acc: Scan)
    requires |acc.arr| == 4 && a < 4 && acc.arr[a] != Some(k)
    ensures ReleaseScan(k, show, a, acc)
         == ReleaseScan(k, show, a + 1, acc.(held := false, events := acc.events + [Event(ButtonKey(k), false), Event(MotionKey(k), false)]))
  {
  }

  lemma PairsPrepend(e: seq<Event>, k: Button, n: nat)
    requires n > 0
    ensures e + [Event(ButtonKey(k), false), Event(MotionKey(k), false)] + Pairs(k, n - 1) == e + Pairs(k, n)
  {
    PairsCommute(k, n - 1);
  }

  /** Scanning up to the cell `j` that holds `k`. */
  lemma {:induction false} ScanUntil(k: Button, show: Option<Button>, a: nat, j: nat, acc: Scan)
    requires |acc.arr| == 4 && a <= j < 4
    requires forall i :: a <= i < j ==> acc.arr[i] != Some(k)
    ensures ReleaseScan(k, show, a, acc)
         == ReleaseScan(k, show, j, acc.(held := acc.held && a == j, events := acc.events + Pairs(k, j - a)))
    decreases j - a
  {
    if a < j {
      var acc' := acc.(held := false, events := acc.events + [Event(ButtonKey(k), false), Event(MotionKey(k), false)]);
      ScanSkip(k, show, a, acc);
      ScanUntil(k, show, a + 1, j, acc');
      PairsPrepend(acc.events, k, j - a);
    } else {
      assert acc.events + Pairs(k, 0) == acc.events;
    }
  }

  /** What the slot scan leaves after releasing `k` from cell `j`. */
  predicate Released(k: Button, arr: seq<Slot>, j: nat, s: Scan)
    requires |arr| == 4 && j < 4
  {
    && s.arr == arr[j := None]
    && !s.held
    && LastWrite(s.events, ButtonKey(k)) == Some(false)
    && LastWrite(s.events, MotionKey(k)) == Some(false)
    && (forall i :: 0 <= i < |s.events| ==> s.events[i].key.MotionKey? || s.events[i] == Event(ButtonKey(k), false))
  }

  /** The slot scan on a hand holding `k` exactly once, at cell `j`: the
      cell is cleared, the held flag reset, and the last events for the
      button image and for its motion image are hides. */
  lemma ReleaseScanEffect(k: Button, show: Option<Button>, arr: seq<Slot>, j: nat)
    requires |arr| == 4 && j < 4 && arr[j] == Some(k)
    requires forall i :: 0 <= i < 4 && i != j ==> arr[i] != Some(k)
    ensures Released(k, arr, j, ReleaseScan(k, show, 0, Scan(arr, true, show, [])))
  {
    if j == 0 {
      ReleaseFirstCell(k, show, arr);
    } else {
      var acc0 := Scan(arr, true, show, []);
      ScanUntil(k, show, 0, j, acc0);
      var accj := acc0.(held := false, events := Pairs(k, j));
      assert [] + Pairs(k, j) == Pairs(k, j);
      ReleaseLaterCell(k, show, arr, j, accj);
    }
  }

  lemma ReleaseFirstCell(k: Button, show: Option<Button>, arr: seq<Slot>)
    requires |arr| == 4 && arr[0] == Some(k)
    requires forall i :: 0 < i < 4 ==> arr[i] != Some(k)
    ensures Released(k, arr, 0, ReleaseScan(k, show, 0, Scan(arr, true, show, [])))
  {
    var acc1 := Scan(arr[0 := None], true, show, NewestMotion(arr, 4));
    assert ReleaseScan(k, show, 0, Scan(arr, true, show, [])) == ReleaseScan(k, show, 1, acc1);
    ScanNoMatch(k, show, 1, acc1);
    var s := ReleaseScan(k, show, 1, acc1);
    assert s.events == NewestMotion(arr, 4) + Pairs(k, 3);
    PairsWrite(k, 3, ButtonKey(k));
    PairsWrite(k, 3, MotionKey(k));
    LastWriteAppend(NewestMotion(arr, 4), Pairs(k, 3), ButtonKey(k));
    LastWriteAppend(NewestMotion(arr, 4), Pairs(k, 3), MotionKey(k));
    forall i | 0 <= i < |s.events| ensures s.events[i].key.MotionKey? || s.events[i] == Event(ButtonKey(k), false) {
      if i >= |NewestMotion(arr, 4)| {
        assert s.events[i] == Pairs(k, 3)[i - |NewestMotion(arr, 4)|];
      }
    }
  }

  lemma ReleaseLaterCell(k: Button, show: Option<Button>, arr: seq<Slot>, j: nat, accj: Scan)
    requires |arr| == 4 && 0 < j < 4 && arr[j] == Some(k)
    requires forall i :: 0 <= i < 4 && i != j ==> arr[i] != Some(k)
    requires accj == Scan(arr, false, show, Pairs(k, j))
    ensures Released(k, arr, j, ReleaseScan(k, show, j, accj))
  {
    var before := arr[j - 1];
    if before.Some? && show != before && show.Some? {
      ReleaseSwapShow(k, show, arr, j, accj);
    } else {
      ReleaseOnward(k, show, arr, j, accj);
    }
  }

  /** Releasing from a later cell whose left neighbour is held and is not
      the motion image shown: the scan stops there. */
  lemma ReleaseSwapShow(k: Button, show: Option<Button>, arr: seq<Slot>, j: nat, accj: Scan)
    requires |arr| == 4 && 0 < j < 4 && arr[j] == Some(k)
    requires accj == Scan(arr, false, show, Pairs(k, j))
    requires arr[j - 1].Some? && show != arr[j - 1] && show.Some?
    ensures Released(k, arr, j, ReleaseScan(k, show, j, accj))
  {
    var s := ReleaseScan(k, show, j, accj);
    var before := arr[j - 1];
    PairsWrite(k, j, ButtonKey(k));
    PairsWrite(k, j, MotionKey(k));
    var tail := [Event(MotionKey(show.value), false), Event(MotionKey(before.value), true), Event(MotionKey(k), false)];
    assert s.events == Pairs(k, j) + tail;
    LastWriteNone(tail, ButtonKey(k));
    LastWriteAt(tail, MotionKey(k), 2);
    LastWriteAppend(Pairs(k, j), tail, ButtonKey(k));
    LastWriteAppend(Pairs(k, j), tail, MotionKey(k));
    forall i | 0 <= i < |s.events| ensures s.events[i].key.MotionKey? || s.events[i] == Event(ButtonKey(k), false) {
      if i < 2 * j { assert s.events[i] == Pairs(k, j)[i]; }
    }
  }

  /** Releasing from a later cell otherwise: the scan goes on over the
      cells after it, none of which holds `k`. */
  lemma ReleaseOnward(k: Button, show: Option<Button>, arr: seq<Slot>, j: nat, accj: Scan)
    requires |arr| == 4 && 0 < j < 4 && arr[j] == Some(k)
    requires forall i :: 0 <= i < 4 && i != j ==> arr[i] != Some(k)
    requires accj == Scan(arr, false, show, Pairs(k, j))
    requires !(arr[j - 1].Some? && show != arr[j - 1] && show.Some?)
    ensures Released(k, arr, j, ReleaseScan(k, show, j, accj))
  {
    var s := ReleaseScan(k, show, j, accj);
    PairsWrite(k, j, ButtonKey(k));
    PairsWrite(k, j, MotionKey(k));
    var accj' := accj.(arr := arr[j := None]);
    assert s == ReleaseScan(k, show, j + 1, accj');
    ScanNoMatch(k, show, j + 1, accj');
    assert s.events == Pairs(k, j) + Pairs(k, 3 - j);
    if j < 3 {
      PairsWrite(k, 3 - j, ButtonKey(k));
      PairsWrite(k, 3 - j, MotionKey(k));
    } else {
      assert Pairs(k, 3 - j) == [];
    }
    LastWriteAppend(Pairs(k, j), Pairs(k, 3 - j), ButtonKey(k));
    LastWriteAppend(Pairs(k, j), Pairs(k, 3 - j), MotionKey(k));
    forall i | 0 <= i < |s.events| ensures s.events[i].key.MotionKey? || s.events[i] == Event(ButtonKey(k), false) {
      if i < 2 * j { assert s.events[i] == Pairs(k, j)[i]; } else { assert s.events[i] == Pairs(k, 3 - j)[i - 2 * j]; }
    }
  }

  /** Exactly one occupied cell: the count loop finds three empty cells and
      that cell. */
  lemma SingleOccupied(arr: seq<Slot>, i: nat)
    requires |arr| == 4 && i < 4 && arr[i].Some?
    requires forall j :: 0 <= j < 4 && j != i ==> arr[j].None?
    ensures EmptyCount(arr, 4) == 3 && LastOccupied(arr, 4) == i
  {
    assert EmptyCount(arr, 1) == (if i == 0 then 0 else 1);
    assert EmptyCount(arr, 2) == (if i <= 1 then 1 else 2);
    assert EmptyCount(arr, 3) == (if i <= 2 then 2 else 3);
    assert LastOccupied(arr, 1) == 0;
    assert LastOccupied(arr, 2) == (if i == 1 then 1 else 0);
    assert LastOccupied(arr, 3) == (if i == 2 then 2 else if i == 1 then 1 else 0);
  }

  /** Releasing a button that is not held yields nothing and changes nothing. */
  lemma ReleaseNotHeld(st: State, k: Button)
    requires WellFormed(st) && !Held(st, k)
    ensures ReleaseSpec(st, k) == Step(st, [])
  {
  }

  /** Clearing the cell of a held button and dropping its flag keeps the
      bookkeeping consistent and changes no other button's held state. */
  lemma ClearCell(st: State, k: Button, j: nat, shown: Option<Button>)
    requires Consistent(st) && Held(st, k) && j < 4 && Hand(st, IsLeft(k))[j] == Some(k)
    ensures var st' := WithHand(st, IsLeft(k), Hand(st, IsLeft(k))[j := None], st.release[k := 0], shown);
      && Consistent(st')
      && !Held(st', k)
      && (forall b :: b != k ==> (Held(st', b) <==> Held(st, b)))
  {
    var left := IsLeft(k);
    var arr := Hand(st, left);
    var arr' := arr[j := None];
    var st' := WithHand(st, left, arr', st.release[k := 0], shown);
    assert Hand(st', left) == arr' && Hand(st', !left) == Hand(st, !left);
    assert HandOk(arr', left);
    forall b ensures Held(st', b) <==> Some(b) in Hand(st', IsLeft(b)) {
      if IsLeft(b) == left && b != k {
        assert Some(b) in arr' <==> Some(b) in arr by {
          if Some(b) in arr { var i :| 0 <= i < 4 && arr[i] == Some(b); assert i != j && arr'[i] == Some(b); }
        }
      }
      if b == k {
        assert Some(k) !in arr';
      }
    }
  }

  /** Releasing a held button, on the state: the bookkeeping stays
      consistent, only `k` is no longer held, its cell is cleared and
      nothing else in the arrays changes. */
  lemma ReleaseState(st: State, k: Button)
    requires Consistent(st) && Held(st, k)
    ensures var r := ReleaseSpec(st, k);
      var arr := Hand(st, IsLeft(k));
      && Consistent(r.st)
      && !Held(r.st, k)
      && (forall b :: b != k ==> (Held(r.st, b) <==> Held(st, b)))
      && (exists j :: 0 <= j < 4 && arr[j] == Some(k) && Hand(r.st, IsLeft(k)) == arr[j := None])
      && Hand(r.st, !IsLeft(k)) == Hand(st, !IsLeft(k))
      && r.st.(release := st.release, left := st.left, right := st.right, leftShow := st.leftShow, rightShow := st.rightShow) == st
  {
    var left := IsLeft(k);
    var arr := Hand(st, left);
    var j :| 0 <= j < 4 && arr[j] == Some(k);
    ReleaseScanEffect(k, ShowOf(st, k), arr, j);
    var s := ReleaseScanOf(st, k);
    assert ReleaseSpec(st, k).st == WithHand(st, left, arr[j := None], st.release[k := 0], s.shown);
    ClearCell(st, k, j, s.shown);
  }

  /** The batch of a release whose scan cleared cell `j`. */
  lemma ReleaseBatchWrites(k: Button, arr: seq<Slot>, j: nat, s: Scan)
    requires |arr| == 4 && j < 4 && Released(k, arr, j, s)
    requires forall i :: 0 <= i < 4 && i != j ==> arr[i] != Some(k)
    ensures var e := s.events + LastOneShow(s.arr);
      && LastWrite(e, ButtonKey(k)) == Some(false)
      && LastWrite(e, MotionKey(k)) == Some(false)
      && (forall b :: b != k ==> LastWrite(e, ButtonKey(b)).None?)
      && (forall i :: 0 <= i < 4 && s.arr[i].Some? && (forall j' :: 0 <= j' < 4 && j' != i ==> s.arr[j'].None?)
            ==> LastWrite(e, MotionKey(s.arr[i].value)) == Some(true))
  {
    var tail := LastOneShow(s.arr);
    assert Some(k) !in s.arr;
    LastWriteNone(tail, ButtonKey(k));
    LastWriteNone(tail, MotionKey(k));
    LastWriteAppend(s.events, tail, ButtonKey(k));
    LastWriteAppend(s.events, tail, MotionKey(k));
    forall i | 0 <= i < 4 && s.arr[i].Some? && (forall j' :: 0 <= j' < 4 && j' != i ==> s.arr[j'].None?)
      ensures LastWrite(s.events + tail, MotionKey(s.arr[i].value)) == Some(true)
    {
      SingleOccupied(s.arr, i);
      LastWriteAt(tail, MotionKey(s.arr[i].value), 0);
      LastWriteAppend(s.events, tail, MotionKey(s.arr[i].value));
    }
    forall b | b != k ensures LastWrite(s.events + tail, ButtonKey(b)).None? {
      LastWriteNone(s.events, ButtonKey(b));
      LastWriteNone(tail, ButtonKey(b));
      LastWriteAppend(s.events, tail, ButtonKey(b));
    }
  }

  /** Releasing a held button, on the batch: the last events for the
      button image and its motion image are hides, only the button image
      of `k` is touched, and if exactly one button is left on that hand its
      motion image ends visible. */
  lemma ReleaseEvents(st: State, k: Button)
    requires Consistent(st) && Held(st, k)
    ensures var r := ReleaseSpec(st, k);
      var arr' := Hand(r.st, IsLeft(k));
      && LastWrite(r.events, ButtonKey(k)) == Some(false)
      && LastWrite(r.events, MotionKey(k)) == Some(false)
      && (forall b :: b != k ==> LastWrite(r.events, ButtonKey(b)).None?)
      && (forall i :: 0 <= i < 4 && arr'[i].Some? && (forall j :: 0 <= j < 4 && j != i ==> arr'[j].None?)
            ==> LastWrite(r.events, MotionKey(arr'[i].value)) == Some(true))
  {
    var arr := Hand(st, IsLeft(k));
    var j :| 0 <= j < 4 && arr[j] == Some(k);
    ReleaseScanEffect(k, ShowOf(st, k), arr, j);
    var s := ReleaseScanOf(st, k);
    var r := ReleaseSpec(st, k);
    assert r.events == s.events + LastOneShow(s.arr);
    assert Hand(r.st, IsLeft(k)) == s.arr;
    ReleaseBatchWrites(k, arr, j, s);
  }

  // ---- one tick (process_structured_hid_data, hardware path) ----

  /** The devices whose reports carry a digit string of button states.
      `Unnamed` stands for a message without a device name and for any
      device name other than io4, ontroller, nageki and yuangeki: the
      message takes the same path with `key_data` left as `[]`. */
  datatype KeyDevice = Nageki | Ontroller | Unnamed

  /** What a tick receives: an io4 report, or the fields of a digit-string
      report (`pos` and `sub_pos` may be missing from the message). */
  datatype HidInput =
    | Io4(report: HidReader.Report)
    | Keyed(device: KeyDevice, pos: Option<int>, subPos: Option<int>, key: string, idk: int)

  /** The table a digit-string device uses. */
  function KeyMapFor(device: KeyDevice, idk: int): map<int, Button> {
    match device
    case Nageki => KeyMapNa
    case Ontroller => if idk == 0 then KeyMapO else KeyMapOIdk
    case Unnamed => map[]
  }

  /** The buttons the report says are pressed (a `ValueError` for a
      digit string holding a non-digit). */
  function PressedSet(input: HidInput): Result<set<Button>> {
    match input
    case Io4(rep) =>
      Ok(set b | b in AllButtons && Io4Pressed(rep.switches[0], rep.switches[1], rep.systemStatus, b))
    case Keyed(device, _, _, key, idk) =>
      if device == Unnamed then Ok({})
      else if forall i :: 0 <= i < |key| ==> IsDigit(key[i]) then Ok(KeyStringPressed(key, KeyMapFor(device, idk)))
      else Err(ValueError)
  }

  /** The raw lever position and the raw value its sub-position comes from. */
  function LeverInput(input: HidInput): Option<(int, int)> {
    match input
    case Io4(rep) => Some((rep.rotary[1], rep.rotary[0]))
    case Keyed(_, pos, subPos, _, _) => if pos.Some? && subPos.Some? then Some((pos.value, subPos.value)) else None
  }

  /** Where a button sits in the tick's visiting order. */
  function TickIndex(b: Button): (i: nat)
    ensures i < 8 && TickOrder[i] == b
  {
    match b
    case LW => 0 case LR => 1 case LG => 2 case LB => 3
    case RR => 4 case RG => 5 case RW => 6 case RB => 7
  }

  /** One button of the tick: a pressed button not yet held is pressed, a
      held one skipped, and a button not pressed goes through `m_release`. */
  function ButtonEdge(st: State, bd: Bounds, prev: Option<int>, pressed: set<Button>, b: Button): (r: Step)
    requires WellFormed(st) && st.lastLeverPos.Some?
    ensures WellFormed(r.st) && r.st.lastLeverPos == st.lastLeverPos
  {
    if b in pressed then
      if st.release[b] == 1 then Step(st, []) else PressSpec(st, bd, b, prev)
    else ReleaseSpec(st, b)
  }

  /** The per-button loop of a tick, from position `i` of the visiting order. */
  function ButtonsLoop(st: State, bd: Bounds, prev: Option<int>, pressed: set<Button>, i: nat, acc: seq<Event>): (r: Step)
    requires WellFormed(st) && st.lastLeverPos.Some? && i <= 8
    ensures WellFormed(r.st) && r.st.lastLeverPos == st.lastLeverPos
    decreases 8 - i
  {
    if i == 8 then Step(st, acc)
    else
      var s := ButtonEdge(st, bd, prev, pressed, TickOrder[i]);
      ButtonsLoop(s.st, bd, prev, pressed, i + 1, acc + s.events)
  }

  /** One turn of the per-button loop. */
  lemma ButtonsLoopTurn(st: State, bd: Bounds, prev: Option<int>, pressed: set<Button>, i: nat, acc: seq<Event>)
    requires WellFormed(st) && st.lastLeverPos.Some? && i < 8
    ensures var s := ButtonEdge(st, bd, prev, pressed, TickOrder[i]);
      ButtonsLoop(st, bd, prev, pressed, i, acc) == ButtonsLoop(s.st, bd, prev, pressed, i + 1, acc + s.events)
  {
  }

  /** The lever-side fields agree. */
  predicate SameLever(s1: State, s2: State) {
    && s1.lastLeverPos == s2.lastLeverPos && s1.lastSubpos == s2.lastSubpos
    && s1.isLeft == s2.isLeft && s1.bgL0 == s2.bgL0 && s1.bgR0 == s2.bgR0
  }

  /** One button of the tick: afterwards it is held exactly when pressed,
      no other button changes, and its button image is written, with the
      new state, exactly when its state changed. */
  lemma ButtonEdgeEffect(st: State, bd: Bounds, prev: Option<int>, pressed: set<Button>, b0: Button)
    requires Consistent(st) && st.lastLeverPos.Some?
    ensures EdgeDone(st, pressed, b0, ButtonEdge(st, bd, prev, pressed, b0))
  {
    if b0 in pressed && Held(st, b0) {
    } else if b0 in pressed {
      PressEdge(st, bd, prev, pressed, b0);
    } else if Held(st, b0) {
      ReleaseEdge(st, bd, prev, pressed, b0);
    } else {
      ReleaseNotHeld(st, b0);
    }
  }

  /** What one button of the tick guarantees. */
  predicate EdgeDone(st: State, pressed: set<Button>, b0: Button, s: Step)
    requires WellFormed(st)
  {
    && Consistent(s.st)
    && SameLever(s.st, st)
    && (Held(s.st, b0) <==> b0 in pressed)
    && (forall b :: b != b0 ==> (Held(s.st, b) <==> Held(st, b)))
    && (forall b :: LastWrite(s.events, ButtonKey(b)) ==
          if b == b0 && Held(st, b) != (b in pressed) then Some(b in pressed) else None)
  }

  lemma PressEdge(st: State, bd: Bounds, prev: Option<int>, pressed: set<Button>, b0: Button)
    requires Consistent(st) && st.lastLeverPos.Some? && b0 in pressed && !Held(st, b0)
    ensures EdgeDone(st, pressed, b0, ButtonEdge(st, bd, prev, pressed, b0))
  {
    assert ButtonEdge(st, bd, prev, pressed, b0) == PressSpec(st, bd, b0, prev);
    PressState(st, bd, b0, prev);
    PressEvents(st, bd, b0, prev);
  }

  lemma ReleaseEdge(st: State, bd: Bounds, prev: Option<int>, pressed: set<Button>, b0: Button)
    requires Consistent(st) && st.lastLeverPos.Some? && b0 !in pressed && Held(st, b0)
    ensures EdgeDone(st, pressed, b0, ButtonEdge(st, bd, prev, pressed, b0))
  {
    assert ButtonEdge(st, bd, prev, pressed, b0) == ReleaseSpec(st, b0);
    ReleaseState(st, b0);
    ReleaseEvents(st, b0);
  }

  /** The per-button loop keeps the bookkeeping consistent, leaves every
      visited button held exactly when it is pressed, and leaves each
      button image's last write equal to its new state when its state
      changed (and untouched otherwise). */
  lemma {:induction false} ButtonsLoopEffect(st: State, bd: Bounds, prev: Option<int>, pressed: set<Button>, i: nat, acc: seq<Event>)
    requires Consistent(st) && st.lastLeverPos.Some? && i <= 8
    ensures var r := ButtonsLoop(st, bd, prev, pressed, i, acc);
      && Consistent(r.st)
      && SameLever(r.st, st)
      && (forall b :: Held(r.st, b) <==> if TickIndex(b) >= i then b in pressed else Held(st, b))
      && (forall b :: LastWrite(r.events, ButtonKey(b)) ==
            if TickIndex(b) >= i && Held(st, b) != (b in pressed) then Some(b in pressed) else LastWrite(acc, ButtonKey(b)))
    decreases 8 - i
  {
    if i < 8 {
      var b0 := TickOrder[i];
      var s := ButtonEdge(st, bd, prev, pressed, b0);
      ButtonEdgeEffect(st, bd, prev, pressed, b0);
      ButtonsLoopEffect(s.st, bd, prev, pressed, i + 1, acc + s.events);
      forall b ensures LastWrite(acc + s.events, ButtonKey(b)) ==
        if b == b0 && Held(st, b) != (b in pressed) then Some(b in pressed) else LastWrite(acc, ButtonKey(b))
      {
        LastWriteAppend(acc, s.events, ButtonKey(b));
      }
      forall b ensures TickIndex(b) == i <==> b == b0 {
        OrdersCoverButtons();
      }
    }
  }

  /** With nothing to change, the per-button loop adds nothing. */
  lemma {:induction false} ButtonsLoopIdle(st: State, bd: Bounds, prev: Option<int>, pressed: set<Button>, i: nat, acc: seq<Event>)
    requires WellFormed(st) && st.lastLeverPos.Some? && i <= 8
    requires forall b :: Held(st, b) <==> b in pressed
    ensures ButtonsLoop(st, bd, prev, pressed, i, acc) == Step(st, acc)
    decreases 8 - i
  {
    if i < 8 {
      ButtonsLoopIdle(st, bd, prev, pressed, i + 1, acc);
      assert acc + [] == acc;
    }
  }

  /** The background bookkeeping at the end of a tick. */
  function BgTail(st: State): seq<Event>
    requires WellFormed(st)
  {
    BgEvents(LeftCount(st) == 0, RightCount(st) == 0, st.bgL0, st.bgR0)
  }

  /** Show each side's background when nothing is held on it, then hide
      each side's background whose flag is down. */
  function BgEvents(leftFree: bool, rightFree: bool, bgL0: bool, bgR0: bool): seq<Event> {
    (if leftFree then [Event(LeftBg, true)] else [])
    + (if rightFree then [Event(RightBg, true)] else [])
    + (if !bgL0 then [Event(LeftBg, false)] else [])
    + (if !bgR0 then [Event(RightBg, false)] else [])
  }

  /** One tick: lever step, decode, per-button edges, background
      bookkeeping.  A message without a lever reading fails before any
      change; a digit string that does not decode fails after the lever
      step has already updated the state. */
  function TickSpec(st: State, bd: Bounds, input: HidInput, cs: seq<Event>): (r: Step)
    requires WellFormed(st)
    ensures WellFormed(r.st)
  {
    match LeverInput(input)
    case None => Step(st, [])
    case Some((position, subRaw)) => TickOn(st, bd, position, SubPosition(subRaw), PressedSet(input), cs)
  }

  /** A tick once the lever reading and the decoded buttons are known. */
  function TickOn(st: State, bd: Bounds, position: int, sub: int, decoded: Result<set<Button>>, cs: seq<Event>): (r: Step)
    requires WellFormed(st)
    ensures WellFormed(r.st)
  {
    Finish(LeverStep(st, bd, position, sub, cs), bd, decoded)
  }

  /** The rest of a tick once the lever step is done: nothing more when the
      report did not decode. */
  function Finish(lv: LeverOut, bd: Bounds, decoded: Result<set<Button>>): (r: Step)
    requires WellFormed(lv.st) && lv.st.lastLeverPos.Some?
    ensures WellFormed(r.st)
  {
    match decoded
    case Err(_) => Step(lv.st, [])
    case Ok(pressed) => AfterLever(lv, bd, pressed)
  }

  /** The rest of a tick once the lever step is done and the report decoded. */
  function AfterLever(lv: LeverOut, bd: Bounds, pressed: set<Button>): (r: Step)
    requires WellFormed(lv.st) && lv.st.lastLeverPos.Some?
    ensures WellFormed(r.st)
  {
    var s := ButtonsLoop(lv.st, bd, lv.prev, pressed, 0, lv.events);
    Step(s.st, s.events + BgTail(s.st))
  }

  /** The background tail: a side that holds nothing gets its background
      shown, then a side whose flag is down gets it hidden again. */
  lemma BgTailWrites(pre: seq<Event>, st: State)
    requires WellFormed(st)
    ensures !st.bgL0 ==> LastWrite(pre + BgTail(st), LeftBg) == Some(false)
    ensures !st.bgR0 ==> LastWrite(pre + BgTail(st), RightBg) == Some(false)
    ensures st.bgL0 && !LeftHeld(st) ==> LastWrite(pre + BgTail(st), LeftBg) == Some(true)
    ensures st.bgR0 && !RightHeld(st) ==> LastWrite(pre + BgTail(st), RightBg) == Some(true)
  {
    LastWriteAppend(pre, BgTail(st), LeftBg);
    LastWriteAppend(pre, BgTail(st), RightBg);
    BgEventsWrites(LeftCount(st) == 0, RightCount(st) == 0, st.bgL0, st.bgR0);
  }

  lemma BgEventsWrites(leftFree: bool, rightFree: bool, bgL0: bool, bgR0: bool)
    ensures LastWrite(BgEvents(leftFree, rightFree, bgL0, bgR0), LeftBg) ==
      if !bgL0 then Some(false) else if leftFree then Some(true) else None
    ensures LastWrite(BgEvents(leftFree, rightFree, bgL0, bgR0), RightBg) ==
      if !bgR0 then Some(false) else if rightFree then Some(true) else None
  {
    BgEventsLeft(leftFree, rightFree, bgL0, bgR0);
    BgEventsRight(leftFree, rightFree, bgL0, bgR0);
  }

  lemma BgEventsLeft(leftFree: bool, rightFree: bool, bgL0: bool, bgR0: bool)
    ensures LastWrite(BgEvents(leftFree, rightFree, bgL0, bgR0), LeftBg) ==
      if !bgL0 then Some(false) else if leftFree then Some(true) else None
  {
    var a := if leftFree then [Event(LeftBg, true)] else [];
    var b := if rightFree then [Event(RightBg, true)] else [];
    var c := if !bgL0 then [Event(LeftBg, false)] else [];
    var d := if !bgR0 then [Event(RightBg, false)] else [];
    assert BgEvents(leftFree, rightFree, bgL0, bgR0) == (a + b) + c + d;
    LastWrite3(a + b, c, d, LeftBg);
    LastWriteAppend(a, b, LeftBg);
  }

  lemma BgEventsRight(leftFree: bool, rightFree: bool, bgL0: bool, bgR0: bool)
    ensures LastWrite(BgEvents(leftFree, rightFree, bgL0, bgR0), RightBg) ==
      if !bgR0 then Some(false) else if rightFree then Some(true) else None
  {
    var a := if leftFree then [Event(LeftBg, true)] else [];
    var b := if rightFree then [Event(RightBg, true)] else [];
    var c := if !bgL0 then [Event(LeftBg, false)] else [];
    var d := if !bgR0 then [Event(RightBg, false)] else [];
    assert BgEvents(leftFree, rightFree, bgL0, bgR0) == (a + b) + c + d;
    LastWrite3(a + b, c, d, RightBg);
    LastWriteAppend(a, b, RightBg);
  }


  /** A tick that cannot read the lever changes nothing and sends nothing;
      a digit string that does not decode sends nothing, yet keeps the
      state the lever step already left behind. */
  lemma TickFailure(st: State, bd: Bounds, input: HidInput, cs: seq<Event>)
    requires WellFormed(st)
    ensures LeverInput(input).None? ==> TickSpec(st, bd, input, cs) == Step(st, [])
    ensures PressedSet(input).Err? ==> TickSpec(st, bd, input, cs).events == []
    ensures LeverInput(input).Some? && PressedSet(input).Err? ==>
      var (position, subRaw) := LeverInput(input).value;
      TickSpec(st, bd, input, cs).st == LeverStep(st, bd, position, SubPosition(subRaw), cs).st
  {
  }

  /** What a tick that decoded guarantees. */
  predicate TickDone(st: State, pressed: set<Button>, position: int, r: Step)
    requires WellFormed(st) && WellFormed(r.st)
  {
    && Consistent(r.st)
    && (forall b :: Held(r.st, b) <==> b in pressed)
    && r.st.lastLeverPos == Some(position)
    && (forall b :: LastWrite(r.events, ButtonKey(b)) ==
          if Held(st, b) != (b in pressed) then Some(b in pressed) else None)
    && (!r.st.bgL0 ==> LastWrite(r.events, LeftBg) == Some(false))
    && (!r.st.bgR0 ==> LastWrite(r.events, RightBg) == Some(false))
    && (r.st.bgL0 && !LeftHeld(r.st) ==> LastWrite(r.events, LeftBg) == Some(true))
    && (r.st.bgR0 && !RightHeld(r.st) ==> LastWrite(r.events, RightBg) == Some(true))
  }

  /** The buttons and background part of a tick, for any lever step that
      left the bookkeeping alone and sent no button image. */
  lemma AfterLeverEffect(st: State, lv: LeverOut, bd: Bounds, pressed: set<Button>)
    requires Consistent(st) && Consistent(lv.st) && lv.st.lastLeverPos.Some?
    requires lv.st.release == st.release
    requires forall i :: 0 <= i < |lv.events| ==> !lv.events[i].key.ButtonKey?
    ensures TickDone(st, pressed, lv.st.lastLeverPos.value, AfterLever(lv, bd, pressed))
    ensures SameLever(AfterLever(lv, bd, pressed).st, lv.st)
  {
    ButtonsLoopEffect(lv.st, bd, lv.prev, pressed, 0, lv.events);
    var s := ButtonsLoop(lv.st, bd, lv.prev, pressed, 0, lv.events);
    AfterLoop(st, lv.events, s, pressed);
    BgTailWrites(s.events, s.st);
  }

  /** Events that never name a button image leave every button image as
      the batch before them left it. */
  lemma AppendKeepsButtons(pre: seq<Event>, tail: seq<Event>, b: Button)
    requires Quiet(tail)
    ensures LastWrite(pre + tail, ButtonKey(b)) == LastWrite(pre, ButtonKey(b))
  {
    LastWriteAppend(pre, tail, ButtonKey(b));
    LastWriteNone(tail, ButtonKey(b));
  }

  lemma BgEventsKeys(leftFree: bool, rightFree: bool, bgL0: bool, bgR0: bool)
    ensures forall i :: 0 <= i < |BgEvents(leftFree, rightFree, bgL0, bgR0)| ==>
      BgEvents(leftFree, rightFree, bgL0, bgR0)[i].key in {LeftBg, RightBg}
  {
  }

  /** The background tail appended to the result of the button loop. */
  lemma AfterLoop(st: State, leverEvents: seq<Event>, s: Step, pressed: set<Button>)
    requires WellFormed(st) && WellFormed(s.st)
    requires forall i :: 0 <= i < |leverEvents| ==> !leverEvents[i].key.ButtonKey?
    requires forall b :: LastWrite(s.events, ButtonKey(b)) ==
               if Held(st, b) != (b in pressed) then Some(b in pressed) else LastWrite(leverEvents, ButtonKey(b))
    ensures forall b :: LastWrite(s.events + BgTail(s.st), ButtonKey(b)) ==
              if Held(st, b) != (b in pressed) then Some(b in pressed) else None
  {
    var tail := BgTail(s.st);
    BgTailQuiet(s.st);
    forall b ensures LastWrite(s.events + tail, ButtonKey(b)) ==
      if Held(st, b) != (b in pressed) then Some(b in pressed) else None
    {
      AppendKeepsButtons(s.events, tail, b);
      LastWriteNone(leverEvents, ButtonKey(b));
    }
  }

  lemma TickCore(st: State, bd: Bounds, position: int, sub: int, pressed: set<Button>, cs: seq<Event>)
    requires Consistent(st) && IsCloseSwing(cs)
    ensures var r := TickOn(st, bd, position, sub, Ok(pressed), cs);
      && TickDone(st, pressed, position, r)
      && (r.st.lastSubpos == sub || !(r.st.bgL0 && r.st.bgR0))
  {
    var lv := LeverStep(st, bd, position, sub, cs);
    LeverStepFrame(st, bd, position, sub, cs);
    assert Consistent(lv.st);
    AfterLeverEffect(st, lv, bd, pressed);
  }

  /** After a tick that decoded, exactly the pressed buttons are held, the
      bookkeeping is consistent, every button image whose state changed
      has its new state as last write (and the others are not touched),
      and the backgrounds end as the flags and the hold state say. */
  lemma TickEffect(st: State, bd: Bounds, input: HidInput, cs: seq<Event>)
    requires Consistent(st) && IsCloseSwing(cs)
    requires LeverInput(input).Some? && PressedSet(input).Ok?
    ensures TickDone(st, PressedSet(input).value, LeverInput(input).value.0, TickSpec(st, bd, input, cs))
  {
    var (position, subRaw) := LeverInput(input).value;
    TickCore(st, bd, position, SubPosition(subRaw), PressedSet(input).value, cs);
    assert TickSpec(st, bd, input, cs) == TickOn(st, bd, position, SubPosition(subRaw), PressedSet(input), cs);
  }

  /** A tick that leaves hold state, hands and shows as they were and
      touches no button or motion image, yet still sends something. */
  predicate Idle(before: State, r: Step) {
    && r.st.release == before.release && r.st.left == before.left && r.st.right == before.right
    && r.st.leftShow == before.leftShow && r.st.rightShow == before.rightShow
    && Quiet(r.events)
    && r.events != []
  }

  /** A batch that touches no button image and no motion image. */
  predicate Quiet(events: seq<Event>) {
    forall i :: 0 <= i < |events| ==> !events[i].key.ButtonKey? && !events[i].key.MotionKey?
  }

  lemma QuietAppend(a: seq<Event>, b: seq<Event>)
    requires Quiet(a) && Quiet(b)
    ensures Quiet(a + b)
  {
    forall i | 0 <= i < |a + b| ensures !(a + b)[i].key.ButtonKey? && !(a + b)[i].key.MotionKey? {
      if i >= |a| {
        assert (a + b)[i] == b[i - |a|];
      }
    }
  }

  /** The background tail is quiet, and it is empty only when both
      background flags are up. */
  lemma BgTailQuiet(st: State)
    requires WellFormed(st)
    ensures Quiet(BgTail(st))
    ensures !(st.bgL0 && st.bgR0) ==> BgTail(st) != []
  {
    BgEventsKeys(LeftCount(st) == 0, RightCount(st) == 0, st.bgL0, st.bgR0);
  }

  /** A tick on the lever position and buttons the state already reflects. */
  lemma SecondTick(s1: State, bd: Bounds, position: int, sub: int, pressed: set<Button>, cs: seq<Event>)
    requires Consistent(s1) && IsCloseSwing(cs)
    requires s1.lastLeverPos == Some(position)
    requires forall b :: Held(s1, b) <==> b in pressed
    requires s1.lastSubpos == sub || !(s1.bgL0 && s1.bgR0)
    ensures Idle(s1, TickOn(s1, bd, position, sub, Ok(pressed), cs))
  {
    var lv := LeverStep(s1, bd, position, sub, cs);
    LeverStepFrame(s1, bd, position, sub, cs);
    LeverStill(s1, bd, position, sub, cs);
    assert Quiet(lv.events);
    assert TickOn(s1, bd, position, sub, Ok(pressed), cs) == AfterLever(lv, bd, pressed);
    IdleAfter(s1, lv, bd, pressed);
  }

  /** The buttons and background part of a tick whose lever step left the
      hold bookkeeping alone, on buttons it already reflects. */
  lemma IdleAfter(s1: State, lv: LeverOut, bd: Bounds, pressed: set<Button>)
    requires WellFormed(lv.st) && lv.st.lastLeverPos.Some?
    requires forall b :: Held(lv.st, b) <==> b in pressed
    requires lv.st.release == s1.release && lv.st.left == s1.left && lv.st.right == s1.right
    requires lv.st.leftShow == s1.leftShow && lv.st.rightShow == s1.rightShow
    requires Quiet(lv.events)
    requires lv.events != [] || !(lv.st.bgL0 && lv.st.bgR0)
    ensures Idle(s1, AfterLever(lv, bd, pressed))
  {
    ButtonsLoopIdle(lv.st, bd, lv.prev, pressed, 0, lv.events);
    BgTailQuiet(lv.st);
    QuietAppend(lv.events, BgTail(lv.st));
    assert AfterLever(lv, bd, pressed) == Step(lv.st, lv.events + BgTail(lv.st));
  }

  /** The second of two ticks on the same lever reading and buttons. */
  lemma RepeatCore(st: State, bd: Bounds, position: int, sub: int, pressed: set<Button>, cs1: seq<Event>, cs2: seq<Event>)
    requires Consistent(st) && IsCloseSwing(cs1) && IsCloseSwing(cs2)
    ensures var r1 := TickOn(st, bd, position, sub, Ok(pressed), cs1);
      Idle(r1.st, TickOn(r1.st, bd, position, sub, Ok(pressed), cs2))
  {
    TickCore(st, bd, position, sub, pressed, cs1);
    var r1 := TickOn(st, bd, position, sub, Ok(pressed), cs1);
    SecondTick(r1.st, bd, position, sub, pressed, cs2);
  }

  /** The same report twice in a row: the second tick changes no hold
      state and touches no button or motion image, but its batch is never
      empty, because the lever or the background bookkeeping always adds
      events. */
  lemma RepeatedTick(st: State, bd: Bounds, input: HidInput, cs1: seq<Event>, cs2: seq<Event>)
    requires Consistent(st) && IsCloseSwing(cs1) && IsCloseSwing(cs2)
    requires LeverInput(input).Some? && PressedSet(input).Ok?
    ensures var r1 := TickSpec(st, bd, input, cs1);
      Idle(r1.st, TickSpec(r1.st, bd, input, cs2))
  {
    var (position, subRaw) := LeverInput(input).value;
    var sub := SubPosition(subRaw);
    RepeatCore(st, bd, position, sub, PressedSet(input).value, cs1, cs2);
    var r1 := TickSpec(st, bd, input, cs1);
    assert r1 == TickOn(st, bd, position, sub, PressedSet(input), cs1);
    assert TickSpec(r1.st, bd, input, cs2) == TickOn(r1.st, bd, position, sub, PressedSet(input), cs2);
  }
}
