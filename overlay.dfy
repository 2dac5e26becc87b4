/** Overlay image keys, visibility events and how a display client applies
    a batch of them.  Keys are a datatype here; `KeyName` gives the string
    the server actually sends, and `ParseKey` reads it back. */
module Overlay {
  import opened Wire
  import opened Lever
  import opened Buttons

  datatype Key =
    | ButtonKey(button: Button)        // the pressed-state image, named by the button id
    | MotionKey(button: Button)        // the hand image, id + "m"
    | LeverKey(img: Option<Band>)      // the neutral lever image, "lever_<n>" or ""
    | LeftLever(img: Option<Band>)     // "l_" + lever image
    | RightLever(img: Option<Band>)    // "r_" + lever image
    | LeftBg                           // "l_0"
    | RightBg                          // "r_0"
    | SwingBg                          // "bg_swing"

  /** `crete_event`: one `{'key': ..., 'visible': ...}` record. */
  datatype Event = Event(key: Key, visible: bool)

  function ImageName(img: Option<Band>): string {
    match img
    case None => ""
    case Some(LeverM2) => "lever_-2"
    case Some(LeverM1) => "lever_-1"
    case Some(Lever0) => "lever_0"
    case Some(LeverP1) => "lever_1"
    case Some(LeverP2) => "lever_2"
  }

  /** The key string sent to the display clients. */
  function KeyName(k: Key): string {
    match k
    case ButtonKey(b) => Id(b)
    case MotionKey(b) => Id(b) + "m"
    case LeverKey(img) => ImageName(img)
    case LeftLever(img) => "l_" + ImageName(img)
    case RightLever(img) => "r_" + ImageName(img)
    case LeftBg => "l_0"
    case RightBg => "r_0"
    case SwingBg => "bg_swing"
  }

  function ButtonOfId(s: string): Option<Button> {
    if s == "31" then Some(LW) else if s == "0" then Some(LR)
    else if s == "5" then Some(LG) else if s == "4" then Some(LB)
    else if s == "1" then Some(RR) else if s == "16" then Some(RG)
    else if s == "15" then Some(RB) else if s == "14" then Some(RW)
    else None
  }

  function ImageOfName(s: string): Option<Option<Band>> {
    if s == "" then Some(None)
    else if s == "lever_-2" then Some(Some(LeverM2)) else if s == "lever_-1" then Some(Some(LeverM1))
    else if s == "lever_0" then Some(Some(Lever0)) else if s == "lever_1" then Some(Some(LeverP1))
    else if s == "lever_2" then Some(Some(LeverP2))
    else None
  }

  /** How a client resolves a key string to one of its overlay images. */
  function ParseKey(s: string): Option<Key> {
    if s == "l_0" then Some(LeftBg)
    else if s == "r_0" then Some(RightBg)
    else if s == "bg_swing" then Some(SwingBg)
    else if ButtonOfId(s).Some? then Some(ButtonKey(ButtonOfId(s).value))
    else if |s| > 0 && s[|s| - 1] == 'm' && ButtonOfId(s[..|s| - 1]).Some? then
      Some(MotionKey(ButtonOfId(s[..|s| - 1]).value))
    else if ImageOfName(s).Some? then Some(LeverKey(ImageOfName(s).value))
    else if |s| >= 2 && s[..2] == "l_" && ImageOfName(s[2..]).Some? then Some(LeftLever(ImageOfName(s[2..]).value))
    else if |s| >= 2 && s[..2] == "r_" && ImageOfName(s[2..]).Some? then Some(RightLever(ImageOfName(s[2..]).value))
    else None
  }

  lemma ImageNameRoundTrip(img: Option<Band>)
    ensures ImageOfName(ImageName(img)) == Some(img)
    ensures ImageName(img) == "" || ImageName(img)[..6] == "lever_"
  {
  }

  lemma ButtonKeyRoundTrip(b: Button)
    ensures ParseKey(KeyName(ButtonKey(b))) == Some(ButtonKey(b))
  {
    match b
    case LW => case LR => case LG => case LB =>
    case RR => case RG => case RB => case RW =>
  }

  lemma MotionKeyRoundTrip(b: Button)
    ensures ParseKey(KeyName(MotionKey(b))) == Some(MotionKey(b))
  {
    var s := KeyName(MotionKey(b));
    assert s[..|s| - 1] == Id(b);
    match b
    case LW => case LR => case LG => case LB =>
    case RR => case RG => case RB => case RW =>
  }

  lemma LeverKeyRoundTrip(img: Option<Band>)
    ensures ParseKey(KeyName(LeverKey(img))) == Some(LeverKey(img))
  {
    match img
    case None =>
    case Some(b) =>
      match b
      case LeverM2 => case LeverM1 => case Lever0 => case LeverP1 => case LeverP2 =>
  }

  lemma LeftLeverRoundTrip(img: Option<Band>)
    ensures ParseKey(KeyName(LeftLever(img))) == Some(LeftLever(img))
  {
    var s := KeyName(LeftLever(img));
    assert s[..2] == "l_" && s[2..] == ImageName(img);
    match img
    case None =>
      assert s == "l_";
      assert ButtonOfId(s).None? && ImageOfName(s).None? && s[|s| - 1] != 'm';
    case Some(b) =>
      match b
      case LeverM2 => case LeverM1 => case Lever0 => case LeverP1 => case LeverP2 =>
  }

  lemma RightLeverRoundTrip(img: Option<Band>)
    ensures ParseKey(KeyName(RightLever(img))) == Some(RightLever(img))
  {
    var s := KeyName(RightLever(img));
    assert s[..2] == "r_" && s[2..] == ImageName(img);
    match img
    case None =>
      assert s == "r_";
      assert ButtonOfId(s).None? && ImageOfName(s).None? && s[|s| - 1] != 'm';
    case Some(b) =>
      match b
      case LeverM2 => case LeverM1 => case Lever0 => case LeverP1 => case LeverP2 =>
  }

  /** Every key name reads back as its key. */
  lemma KeyNameRoundTrip(k: Key)
    ensures ParseKey(KeyName(k)) == Some(k)
  {
    match k
    case ButtonKey(b) => ButtonKeyRoundTrip(b);
    case MotionKey(b) => MotionKeyRoundTrip(b);
    case LeverKey(img) => LeverKeyRoundTrip(img);
    case LeftLever(img) => LeftLeverRoundTrip(img);
    case RightLever(img) => RightLeverRoundTrip(img);
    case LeftBg =>
    case RightBg =>
    case SwingBg =>
  }

  /** Distinct keys are sent as distinct strings. */
  lemma KeyNameInjective(k1: Key, k2: Key)
    requires KeyName(k1) == KeyName(k2)
    ensures k1 == k2
  {
    KeyNameRoundTrip(k1);
    KeyNameRoundTrip(k2);
  }

  // ---- applying a batch ----

  /** The visibility the last event for `k` in the batch sets, if any. */
  function LastWrite(events: seq<Event>, k: Key): Option<bool>
    decreases |events|
  {
    if |events| == 0 then None
    else if events[|events| - 1].key == k then Some(events[|events| - 1].visible)
    else LastWrite(events[..|events| - 1], k)
  }

  /** The display client's loop: events are applied in order, each one
      overwriting the visibility of its image; `shown` is the visibility
      before the batch. */
  function Apply(events: seq<Event>, k: Key, shown: bool): bool
    decreases |events|
  {
    if |events| == 0 then shown
    else Apply(events[1..], k, if events[0].key == k then events[0].visible else shown)
  }

  /** The last write for `k` in a concatenation comes from the second part
      when it mentions `k`, and from the first part otherwise. */
  lemma {:induction false} LastWriteAppend(a: seq<Event>, b: seq<Event>, k: Key)
    ensures LastWrite(a + b, k) == if LastWrite(b, k).Some? then LastWrite(b, k) else LastWrite(a, k)
    decreases |b|
  {
    if |b| == 0 {
      assert a + b == a;
    } else {
      assert (a + b)[..|a + b| - 1] == a + b[..|b| - 1];
      LastWriteAppend(a, b[..|b| - 1], k);
    }
  }

  /** A batch leaves `k` as it found it exactly when it has no event for `k`. */
  lemma {:induction false} LastWriteNone(events: seq<Event>, k: Key)
    ensures LastWrite(events, k).None? <==> forall i :: 0 <= i < |events| ==> events[i].key != k
    decreases |events|
  {
    if |events| > 0 {
      LastWriteNone(events[..|events| - 1], k);
    }
  }

  /** A last write is the visibility of some event for that key. */
  lemma {:induction false} LastWriteFrom(events: seq<Event>, k: Key)
    ensures LastWrite(events, k).Some? ==>
      exists i :: 0 <= i < |events| && events[i] == Event(k, LastWrite(events, k).value)
    decreases |events|
  {
    if |events| > 0 && events[|events| - 1].key != k {
      LastWriteFrom(events[..|events| - 1], k);
      if LastWrite(events, k).Some? {
        var i :| 0 <= i < |events| - 1 && events[..|events| - 1][i] == Event(k, LastWrite(events, k).value);
        assert events[i] == Event(k, LastWrite(events, k).value);
      }
    }
  }

  /** An event for `k` with no later event for `k` is the last write. */
  lemma {:induction false} LastWriteAt(events: seq<Event>, k: Key, i: nat)
    requires i < |events| && events[i].key == k
    requires forall j :: i < j < |events| ==> events[j].key != k
    ensures LastWrite(events, k) == Some(events[i].visible)
    decreases |events|
  {
    if i < |events| - 1 {
      LastWriteAt(events[..|events| - 1], k, i);
    }
  }

  /** A batch of hides never leaves anything visible. */
  lemma HidesOnly(events: seq<Event>, k: Key)
    requires forall i :: 0 <= i < |events| ==> !events[i].visible
    ensures LastWrite(events, k) != Some(true)
  {
    LastWriteFrom(events, k);
  }

  /** In-order application by the client amounts to last-write-wins. */
  lemma {:induction false} ApplyIsLastWrite(events: seq<Event>, k: Key, shown: bool)
    ensures Apply(events, k, shown) == LastWrite(events, k).GetOr(shown)
    decreases |events|
  {
    if |events| > 0 {
      var v := if events[0].key == k then events[0].visible else shown;
      ApplyIsLastWrite(events[1..], k, v);
      assert events == [events[0]] + events[1..];
      LastWriteAppend([events[0]], events[1..], k);
    }
  }

  /** The names of a batch, in order, as sent. */
  function Names(events: seq<Event>): (r: seq<(string, bool)>)
    ensures |r| == |events|
    ensures forall i :: 0 <= i < |events| ==> r[i] == (KeyName(events[i].key), events[i].visible)
  {
    seq(|events|, i requires 0 <= i < |events| => (KeyName(events[i].key), events[i].visible))
  }

  /** Last-write-wins over the key strings the client sees. */
  function LastWriteByName(batch: seq<(string, bool)>, name: string): Option<bool>
    decreases |batch|
  {
    if |batch| == 0 then None
    else if batch[|batch| - 1].0 == name then Some(batch[|batch| - 1].1)
    else LastWriteByName(batch[..|batch| - 1], name)
  }

  /** Because names are injective, what a client computes per string is
      what the model computes per key. */
  lemma {:induction false} LastWriteByNameAgrees(events: seq<Event>, k: Key)
    ensures LastWriteByName(Names(events), KeyName(k)) == LastWrite(events, k)
    decreases |events|
  {
    if |events| > 0 {
      var n := |events| - 1;
      assert Names(events)[..n] == Names(events[..n]);
      if KeyName(events[n].key) == KeyName(k) {
        KeyNameInjective(events[n].key, k);
      }
      LastWriteByNameAgrees(events[..n], k);
    }
  }
}
