/** The lever band mapper: the five thresholds derived from the configured
    extremes `L_MAX` / `R_MAX`, the coarse band lookup `get_pos` and the fine
    sub-position `get_sub_position`. */
module Lever {
  import opened Wire

  /** The five coarse lever images, `lever_-2` .. `lever_2`. */
  datatype Band = LeverM2 | LeverM1 | Lever0 | LeverP1 | LeverP2

  /** The number in the image name: `lever_<Num(b)>`. */
  function Num(b: Band): int {
    match b
    case LeverM2 => -2
    case LeverM1 => -1
    case Lever0 => 0
    case LeverP1 => 1
    case LeverP2 => 2
  }

  /** The normalised extremes and the four inner thresholds. */
  datatype Bounds = Bounds(lMax: int, rMax: int, l2: int, l1: int, r1: int, r2: int)

  /** The step between consecutive thresholds. */
  function Space(bd: Bounds): int {
    bd.lMax - bd.l2
  }

  /** The threshold chain that `get_pos` relies on: L_MAX >= L_2 >= L_1 >= R_1 >= R_2. */
  predicate Ordered(bd: Bounds) {
    bd.lMax >= bd.l2 >= bd.l1 >= bd.r1 >= bd.r2
  }

  /** `math.ceil(d / 5)` for a non-negative integer `d`. */
  function CeilDiv5(d: nat): (q: nat)
    ensures 5 * q - 4 <= d <= 5 * q
  {
    (d + 4) / 5
  }

  /** Threshold computation from the configured extremes: swap them when
      they come in the wrong order, then step down from `L_MAX` four times
      by `ceil((L_MAX - R_MAX) / 5)`. */
  function Thresholds(lMaxCfg: int, rMaxCfg: int): (bd: Bounds)
    ensures bd.lMax == (if lMaxCfg < rMaxCfg then rMaxCfg else lMaxCfg)
    ensures bd.rMax == (if lMaxCfg < rMaxCfg then lMaxCfg else rMaxCfg)
    ensures bd.lMax >= bd.rMax
    ensures bd.lMax - bd.l2 == bd.l2 - bd.l1 == bd.l1 - bd.r1 == bd.r1 - bd.r2 == Space(bd)
    ensures 5 * Space(bd) - 4 <= bd.lMax - bd.rMax <= 5 * Space(bd)
    ensures Ordered(bd)
  {
    var lMax := if lMaxCfg < rMaxCfg then rMaxCfg else lMaxCfg;
    var rMax := if lMaxCfg < rMaxCfg then lMaxCfg else rMaxCfg;
    var space := CeilDiv5(lMax - rMax);
    var l2 := lMax - space;
    var l1 := l2 - space;
    var r1 := l1 - space;
    var r2 := r1 - space;
    Bounds(lMax, rMax, l2, l1, r1, r2)
  }

  /** The band intervals, stated independently of `GetPos`: half-open,
      except that the two outer bands reach 20 units past the extremes. */
  predicate InBand(bd: Bounds, b: Band, p: int) {
    match b
    case LeverM2 => bd.l2 <= p < bd.lMax + 20
    case LeverM1 => bd.l1 <= p < bd.l2
    case Lever0 => bd.r1 <= p < bd.l1
    case LeverP1 => bd.r2 <= p < bd.r1
    case LeverP2 => bd.rMax - 20 < p < bd.r2
  }

  /** `get_pos`: five independent `if`s, each overwriting the image name;
      `None` is the empty name `""` returned outside every band. */
  function GetPos(bd: Bounds, position: int): (r: Option<Band>)
    ensures r.Some? ==> InBand(bd, r.value, position)
  {
    var img := None;
    var img := if bd.lMax + 20 > position >= bd.l2 then Some(LeverM2) else img;
    var img := if bd.l2 > position >= bd.l1 then Some(LeverM1) else img;
    var img := if bd.l1 > position >= bd.r1 then Some(Lever0) else img;
    var img := if bd.r1 > position >= bd.r2 then Some(LeverP1) else img;
    var img := if bd.r2 > position > bd.rMax - 20 then Some(LeverP2) else img;
    img
  }

  /** With ordered thresholds at most one band contains a position. */
  lemma BandsDisjoint(bd: Bounds, p: int, b1: Band, b2: Band)
    requires Ordered(bd)
    requires InBand(bd, b1, p) && InBand(bd, b2, p)
    ensures b1 == b2
  {
  }

  /** `get_pos` names exactly the band that contains the position, and
      returns `""` exactly when no band does. */
  lemma GetPosIsBand(bd: Bounds, p: int)
    requires Ordered(bd)
    ensures forall b :: GetPos(bd, p) == Some(b) <==> InBand(bd, b, p)
    ensures GetPos(bd, p) == None <==> forall b :: !InBand(bd, b, p)
  {
    forall b | InBand(bd, b, p)
      ensures GetPos(bd, p) == Some(b)
    {
      forall b' | b' != b ensures !InBand(bd, b', p) {
        if InBand(bd, b', p) { BandsDisjoint(bd, p, b, b'); }
      }
    }
  }

  /** A larger position never yields a higher-numbered band. */
  lemma GetPosMonotone(bd: Bounds, p: int, q: int)
    requires Ordered(bd)
    requires p <= q
    requires GetPos(bd, p).Some? && GetPos(bd, q).Some?
    ensures Num(GetPos(bd, q).value) <= Num(GetPos(bd, p).value)
  {
    GetPosIsBand(bd, p);
    GetPosIsBand(bd, q);
  }

  /** `get_sub_position`: `rotary0 // 12.75` clamped to 0..19.  Since
      12.75 = 51/4, the floor quotient is computed exactly as `4 * r / 51`. */
  function SubPosition(r: int): (s: int)
    ensures 0 <= s <= 19
  {
    var q := (4 * r) / 51;
    if q < 0 then 0 else if q > 19 then 19 else q
  }

  /** The twenty sub-positions split the raw range into bands of 51/4
      raw units, the first and last band open-ended. */
  lemma SubPositionBands(r: int)
    ensures SubPosition(r) == 0 <==> 4 * r < 51
    ensures SubPosition(r) == 19 <==> 4 * r >= 51 * 19
    ensures 0 < SubPosition(r) < 19 ==> 51 * SubPosition(r) <= 4 * r < 51 * (SubPosition(r) + 1)
  {
  }

  lemma SubPositionMonotone(r: int, r': int)
    requires r <= r'
    ensures SubPosition(r) <= SubPosition(r')
  {
    SubPositionBands(r);
    SubPositionBands(r');
  }

  /** The full-scale and negative readings, and the first and last band edges. */
  lemma SubPositionExamples()
    ensures SubPosition(255) == 19
    ensures SubPosition(-40) == 0
    ensures SubPosition(12) == 0 && SubPosition(13) == 1
    ensures SubPosition(242) == 18
  {
  }

  /** A concrete configuration: extremes 50 and 200 in either order. */
  lemma ThresholdsExample()
    ensures Thresholds(50, 200) == Bounds(200, 50, 170, 140, 110, 80)
    ensures Thresholds(200, 50) == Thresholds(50, 200)
    ensures GetPos(Thresholds(50, 200), 219) == Some(LeverM2)
    ensures GetPos(Thresholds(50, 200), 220) == None
    ensures GetPos(Thresholds(50, 200), 140) == Some(LeverM1)
    ensures GetPos(Thresholds(50, 200), 139) == Some(Lever0)
    ensures GetPos(Thresholds(50, 200), 31) == Some(LeverP2)
    ensures GetPos(Thresholds(50, 200), 30) == None
  {
  }
}
