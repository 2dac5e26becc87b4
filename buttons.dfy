/** The eight controller buttons, the per-device bit tables that name them,
    and the two decoders that turn a device report into the list of
    pressed buttons: the io4 switch words, and the digit strings sent by
    the ontroller and nageki variants. */
module Buttons {
  import opened Wire

  /** Left hand W, R, G, B and right hand R, G, B, W. */
  datatype Button = LW | LR | LG | LB | RR | RG | RB | RW

  /** The id string of a button, which is also its overlay image key. */
  function Id(b: Button): string {
    match b
    case LW => "31"
    case LR => "0"
    case LG => "5"
    case LB => "4"
    case RR => "1"
    case RG => "16"
    case RB => "15"
    case RW => "14"
  }

  predicate IsLeft(b: Button) {
    b.LW? || b.LR? || b.LG? || b.LB?
  }

  const AllButtons: set<Button> := {LW, LR, LG, LB, RR, RG, RB, RW}

  /** Key order of the `release_button` dictionary; its first four entries
      are the left hand. */
  const DictOrder: seq<Button> := [LW, LR, LG, LB, RR, RG, RB, RW]

  /** The order in which one tick visits the buttons. */
  const TickOrder: seq<Button> := [LW, LR, LG, LB, RR, RG, RW, RB]

  predicate NoDup<T(==)>(s: seq<T>) {
    forall i, j :: 0 <= i < j < |s| ==> s[i] != s[j]
  }

  lemma OrdersCoverButtons()
    ensures forall b :: b in AllButtons
    ensures forall b :: b in DictOrder && b in TickOrder
    ensures NoDup(DictOrder) && NoDup(TickOrder)
    ensures forall i :: 0 <= i < 8 ==> (IsLeft(DictOrder[i]) <==> i < 4)
  {
    forall b ensures b in AllButtons && b in DictOrder && b in TickOrder {
      match b
      case LW => case LR => case LG => case LB =>
      case RR => case RG => case RB => case RW =>
    }
  }

  // ---- per-device bit tables ----

  /** `key_map_io4`: switch word index -> string index -> button. */
  const KeyMapIo4: map<int, map<int, Button>> :=
    map[0 := map[7 := LR, 2 := LG, 3 := LB, 6 := RR],
        1 := map[7 := RG, 8 := RB, 9 := RW]]

  /** `key_map_o` (ontroller, idk == 0). */
  const KeyMapO: map<int, Button> :=
    map[7 := LR, 6 := LG, 5 := LB, 4 := RR, 3 := RG, 2 := RB, 1 := LW, 0 := RW]

  /** `key_map_o_idk` (ontroller, idk != 0). */
  const KeyMapOIdk: map<int, Button> :=
    map[0 := LR, 1 := LG, 2 := LB, 3 := RR, 4 := RG, 5 := RB, 7 := LW, 6 := RW]

  /** `key_map_na` (nageki). */
  const KeyMapNa: map<int, Button> :=
    map[0 := LR, 1 := LG, 2 := LB, 5 := RR, 6 := RG, 7 := RB, 3 := LW, 8 := RW]

  /** A table names each button at most once. */
  predicate InjectiveMap(m: map<int, Button>) {
    forall i, j :: i in m && j in m && i != j ==> m[i] != m[j]
  }

  lemma KeyMapsInjective()
    ensures InjectiveMap(KeyMapO) && InjectiveMap(KeyMapOIdk) && InjectiveMap(KeyMapNa)
  {
    KeyMapOInjective();
    KeyMapOIdkInjective();
    KeyMapNaInjective();
  }

  /** The digit `key_map_o` gives each button. */
  function DigitO(b: Button): int {
    match b
    case LR => 7 case LG => 6 case LB => 5 case RR => 4
    case RG => 3 case RB => 2 case LW => 1 case RW => 0
  }

  /** The digit `key_map_o_idk` gives each button. */
  function DigitOIdk(b: Button): int {
    match b
    case LR => 0 case LG => 1 case LB => 2 case RR => 3
    case RG => 4 case RB => 5 case LW => 7 case RW => 6
  }

  /** The digit `key_map_na` gives each button. */
  function DigitNa(b: Button): int {
    match b
    case LR => 0 case LG => 1 case LB => 2 case RR => 5
    case RG => 6 case RB => 7 case LW => 3 case RW => 8
  }

  lemma KeyMapOInjective()
    ensures InjectiveMap(KeyMapO)
  {
    assert forall i :: i in KeyMapO ==> DigitO(KeyMapO[i]) == i;
  }

  lemma KeyMapOIdkInjective()
    ensures InjectiveMap(KeyMapOIdk)
  {
    assert forall i :: i in KeyMapOIdk ==> DigitOIdk(KeyMapOIdk[i]) == i;
  }

  lemma KeyMapNaInjective()
    ensures InjectiveMap(KeyMapNa)
  {
    assert forall i :: i in KeyMapNa ==> DigitNa(KeyMapNa[i]) == i;
  }

  // ---- binary strings of the io4 switch words ----

  /** Bit `j` of `w`, counting from the least significant bit. */
  predicate Bit(w: nat, j: nat) {
    if j == 0 then w % 2 == 1 else Bit(w / 2, j - 1)
  }

  /** The low `n` bits of `w`, most significant first, as '0'/'1'
      characters: `f"{w:016b}"` for `n == 16` and `0 <= w < 65536`. */
  function Binary(w: nat, n: nat): (r: seq<char>)
    ensures |r| == n
    ensures forall i :: 0 <= i < n ==> r[i] == '0' || r[i] == '1'
  {
    if n == 0 then [] else Binary(w / 2, n - 1) + [if w % 2 == 1 then '1' else '0']
  }

  /** Character `i` of the string is bit `n - 1 - i`: index 0 is the MSB. */
  lemma {:induction false} BinaryAt(w: nat, n: nat, i: nat)
    requires i < n
    ensures Binary(w, n)[i] == if Bit(w, n - 1 - i) then '1' else '0'
  {
    if i < n - 1 {
      BinaryAt(w / 2, n - 1, i);
    }
  }

  /** The io4 reading, stated bit by bit on the two switch words: string
      index `i` is bit `15 - i`; the right-hand W bit (word 1, bit 6) is
      active low; the left-hand W is reported through `system_status == 0`. */
  predicate Io4Pressed(sw0: nat, sw1: nat, systemStatus: int, b: Button) {
    match b
    case LR => Bit(sw0, 8)
    case LG => Bit(sw0, 13)
    case LB => Bit(sw0, 12)
    case RR => Bit(sw0, 9)
    case RG => Bit(sw1, 8)
    case RB => Bit(sw1, 7)
    case RW => !Bit(sw1, 6)
    case LW => systemStatus == 0
  }

  /** The character at a string position counts as pressed (RW inverted). */
  predicate ActiveChar(w: int, i: int, c: char) {
    if w == 1 && i == 9 then c == '0' else c == '1'
  }

  /** Where `key_map_io4` names a button: the inverse of the table. */
  function Io4Slot(b: Button): Option<(int, int)> {
    match b
    case LR => Some((0, 7))
    case LG => Some((0, 2))
    case LB => Some((0, 3))
    case RR => Some((0, 6))
    case RG => Some((1, 7))
    case RB => Some((1, 8))
    case RW => Some((1, 9))
    case LW => None
  }

  lemma Io4SlotInvertsTable()
    ensures forall w, i :: w in KeyMapIo4 && i in KeyMapIo4[w] ==> Io4Slot(KeyMapIo4[w][i]) == Some((w, i))
    ensures forall b :: Io4Slot(b).Some? ==> (var (w, i) := Io4Slot(b).value;
              w in KeyMapIo4 && i in KeyMapIo4[w] && KeyMapIo4[w][i] == b && 0 <= i < 16)
  {
    Io4SlotOfTable();
    forall b | Io4Slot(b).Some?
      ensures var (w, i) := Io4Slot(b).value; w in KeyMapIo4 && i in KeyMapIo4[w] && KeyMapIo4[w][i] == b && 0 <= i < 16
    {
      Io4TableOfSlot(b);
    }
  }

  lemma Io4SlotOfTable()
    ensures forall w, i :: w in KeyMapIo4 && i in KeyMapIo4[w] ==> Io4Slot(KeyMapIo4[w][i]) == Some((w, i))
  {
    assert KeyMapIo4.Keys == {0, 1};
    assert forall i :: i in KeyMapIo4[0] ==> Io4Slot(KeyMapIo4[0][i]) == Some((0, i));
    assert forall i :: i in KeyMapIo4[1] ==> Io4Slot(KeyMapIo4[1][i]) == Some((1, i));
  }

  lemma Io4TableOfSlot(b: Button)
    requires Io4Slot(b).Some?
    ensures var (w, i) := Io4Slot(b).value; w in KeyMapIo4 && i in KeyMapIo4[w] && KeyMapIo4[w][i] == b && 0 <= i < 16
  {
    match b
    case LR => case LG => case LB => case RR =>
    case RG => case RB => case RW =>
  }

  /** Has the loop over (word, position) already visited slot `s`? */
  predicate Visited(s: (int, int), w: int, i: int) {
    s.0 < w || (s.0 == w && s.1 < i)
  }

  /** The buttons found so far by the io4 scan, once it reaches (w, i). */
  predicate FoundBefore(keyData: seq<seq<char>>, b: Button, w: int, i: int)
    requires |keyData| == 2 && |keyData[0]| == 16 && |keyData[1]| == 16
  {
    match Io4Slot(b)
    case None => false
    case Some(s) => Visited(s, w, i) && 0 <= s.0 < 2 && 0 <= s.1 < 16 && ActiveChar(s.0, s.1, keyData[s.0][s.1])
  }

  /** The io4 decode: both switch words as 16-character binary strings,
      then a scan of every position, looking each active position up in
      `key_map_io4`; finally LW when `system_status` is 0. */
  method DecodeIo4(sw0: nat, sw1: nat, systemStatus: int) returns (pressed: seq<Button>)
    requires sw0 < 0x1_0000 && sw1 < 0x1_0000
    ensures forall b :: b in pressed <==> Io4Pressed(sw0, sw1, systemStatus, b)
    ensures NoDup(pressed)
  {
    var keyData := [Binary(sw0, 16), Binary(sw1, 16)];
    pressed := [];
    var switchIdx := 0;
    while switchIdx < 2
      invariant 0 <= switchIdx <= 2
      invariant NoDup(pressed)
      invariant forall b :: b in pressed <==> FoundBefore(keyData, b, switchIdx, 0)
    {
      var bitPos := 0;
      while bitPos < 16
        invariant 0 <= bitPos <= 16
        invariant NoDup(pressed)
        invariant forall b :: b in pressed <==> FoundBefore(keyData, b, switchIdx, bitPos)
      {
        var newState := if keyData[switchIdx][bitPos] == '1' then 1 else 0;
        if switchIdx == 1 && bitPos == 9 {
          newState := if newState == 0 then 1 else 0;
        }
        Io4ScanStep(keyData, switchIdx, bitPos, newState == 1);
        if newState == 1 && bitPos in KeyMapIo4[switchIdx] {
          pressed := pressed + [KeyMapIo4[switchIdx][bitPos]];
        }
        bitPos := bitPos + 1;
      }
      assert forall b :: FoundBefore(keyData, b, switchIdx, 16) == FoundBefore(keyData, b, switchIdx + 1, 0);
      switchIdx := switchIdx + 1;
    }
    if systemStatus == 0 {
      assert !FoundBefore(keyData, LW, 2, 0);
      pressed := pressed + [LW];
    }
    forall b ensures b in pressed <==> Io4Pressed(sw0, sw1, systemStatus, b) {
      if Io4Slot(b).Some? {
        var (w, i) := Io4Slot(b).value;
        BinaryAt(if w == 0 then sw0 else sw1, 16, i);
      }
    }
  }

  /** One position of the io4 scan: the found set grows by the table entry
      at (w, i) exactly when the position is active and the table has one. */
  lemma Io4ScanStep(keyData: seq<seq<char>>, w: int, i: int, active: bool)
    requires |keyData| == 2 && |keyData[0]| == 16 && |keyData[1]| == 16
    requires 0 <= w < 2 && 0 <= i < 16
    requires keyData[w][i] == '0' || keyData[w][i] == '1'
    requires active == ActiveChar(w, i, keyData[w][i])
    ensures w in KeyMapIo4
    ensures forall b :: FoundBefore(keyData, b, w, i + 1) <==>
      FoundBefore(keyData, b, w, i) || (active && i in KeyMapIo4[w] && b == KeyMapIo4[w][i])
    ensures active && i in KeyMapIo4[w] ==> !FoundBefore(keyData, KeyMapIo4[w][i], w, i)
  {
    Io4SlotInvertsTable();
    forall b ensures FoundBefore(keyData, b, w, i + 1) <==>
      FoundBefore(keyData, b, w, i) || (active && i in KeyMapIo4[w] && b == KeyMapIo4[w][i])
    {
      if Io4Slot(b) == Some((w, i)) {
        assert i in KeyMapIo4[w] && KeyMapIo4[w][i] == b;
      }
    }
  }

  /** With all switch bits clear and a non-zero status, only the
      active-low right-hand W reads as pressed. */
  lemma Io4AllClear(systemStatus: int)
    requires systemStatus != 0
    ensures forall b :: Io4Pressed(0, 0, systemStatus, b) <==> b == RW
  {
    forall b ensures Io4Pressed(0, 0, systemStatus, b) <==> b == RW {
      assert !Bit(0, 6) && !Bit(0, 7) && !Bit(0, 8) && !Bit(0, 9) && !Bit(0, 12) && !Bit(0, 13);
    }
  }

  // ---- digit-string variants ----

  /** A character `int()` accepts: the ASCII decimal digits only (see README). */
  predicate IsDigit(c: char) {
    '0' <= c <= '9'
  }

  /** The buttons a digit string reports: a '1' at a position the table names. */
  function KeyStringPressed(keyData: string, keyMap: map<int, Button>): set<Button> {
    set i | 0 <= i < |keyData| && keyData[i] == '1' && i in keyMap :: keyMap[i]
  }

  /** The ontroller/nageki decode: `int()` of every character (a
      non-digit raises `ValueError`), and a table lookup for each '1'. */
  method DecodeKeyString(keyData: string, keyMap: map<int, Button>) returns (r: Result<seq<Button>>)
    ensures r.Ok? <==> forall i :: 0 <= i < |keyData| ==> IsDigit(keyData[i])
    ensures r.Err? ==> r.error == ValueError
    ensures r.Ok? ==> forall b :: b in r.value <==> b in KeyStringPressed(keyData, keyMap)
    ensures r.Ok? && InjectiveMap(keyMap) ==> NoDup(r.value)
  {
    var pressed: seq<Button> := [];
    var bitPos := 0;
    while bitPos < |keyData|
      invariant 0 <= bitPos <= |keyData|
      invariant forall i :: 0 <= i < bitPos ==> IsDigit(keyData[i])
      invariant forall b :: b in pressed <==> b in KeyStringPressed(keyData[..bitPos], keyMap)
      invariant InjectiveMap(keyMap) ==> NoDup(pressed)
    {
      var c := keyData[bitPos];
      if !IsDigit(c) {
        return Err(ValueError);
      }
      assert keyData[..bitPos + 1] == keyData[..bitPos] + [c];
      if c == '1' && bitPos in keyMap {
        if InjectiveMap(keyMap) {
          forall j | 0 <= j < |pressed| ensures pressed[j] != keyMap[bitPos] {
            assert pressed[j] in KeyStringPressed(keyData[..bitPos], keyMap);
          }
        }
        pressed := pressed + [keyMap[bitPos]];
      }
      bitPos := bitPos + 1;
    }
    assert keyData[..bitPos] == keyData;
    r := Ok(pressed);
  }
}
