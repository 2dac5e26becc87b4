/** The standalone lever monitor: the full `output_t` decode with its coin
    conditions, the change test that keeps it from printing a report twice,
    and the 24-byte ontroller report decode with its monitor loop. */
module LeverHid {
  import opened Wire
  import HidReader

  /** The coin slot states of the io4 board. */
  datatype CoinCondition = Normal | Jam | Disconnect | Busy

  function CoinValue(c: CoinCondition): Byte {
    match c
    case Normal => 0
    case Jam => 1
    case Disconnect => 2
    case Busy => 3
  }

  /** `CoinCondition(v)`: any value but the four members is a `ValueError`. */
  function CoinConditionOf(v: Byte): (r: Result<CoinCondition>)
    ensures r.Ok? <==> v < 4
    ensures r.Err? ==> r.error == ValueError
  {
    if v == 0 then Ok(Normal)
    else if v == 1 then Ok(Jam)
    else if v == 2 then Ok(Disconnect)
    else if v == 3 then Ok(Busy)
    else Err(ValueError)
  }

  lemma CoinConditionRoundTrip(c: CoinCondition)
    ensures CoinConditionOf(CoinValue(c)) == Ok(c)
  {
  }

  lemma CoinValueRoundTrip(v: Byte)
    requires v < 4
    ensures CoinValue(CoinConditionOf(v).value) == v
  {
  }

  datatype Coin = Coin(condition: CoinCondition, count: Byte)

  /** The dictionary `parse_output_t` returns. */
  datatype OutputT = OutputT(
    analog: seq<int>,
    rotary: seq<int>,
    coin: seq<Coin>,
    switches: seq<int>,
    systemStatus: Byte,
    usbStatus: Byte)

  /** Eight analog and four rotary signed words, two coin records, two
      unsigned switch words. */
  ghost predicate OutputShape(o: OutputT) {
    && |o.analog| == 8 && AllI16(o.analog)
    && |o.rotary| == 4 && AllI16(o.rotary)
    && |o.coin| == 2
    && |o.switches| == 2 && AllU16(o.switches)
  }

  /** `parse_output_t`: `struct.unpack('<8h 4h 2B 2B 2H 2B 29x')` (a buffer
      of any other size than 63 bytes is a `struct.error`), then the two
      coin conditions through `CoinCondition`. */
  function ParseOutputT(data: seq<Byte>): (r: Result<OutputT>)
    ensures r.Ok? <==> |data| == HidReader.ReportSize && data[24] < 4 && data[26] < 4
    ensures r.Err? ==> (r.error == StructError <==> |data| != HidReader.ReportSize)
    ensures r.Ok? ==> OutputShape(r.value)
  {
    if |data| != HidReader.ReportSize then Err(StructError)
    else
      match CoinConditionOf(data[24])
      case Err(e) => Err(e)
      case Ok(c0) =>
        match CoinConditionOf(data[26])
        case Err(e) => Err(e)
        case Ok(c1) =>
          Ok(OutputT(I16s(data, 0, 8), I16s(data, 16, 4), [Coin(c0, data[25]), Coin(c1, data[27])],
                     U16s(data, 28, 2), data[32], data[33]))
  }

  /** The device side: the 34 meaningful bytes and 29 bytes of padding. */
  function EncodeOutputT(o: OutputT, pad: seq<Byte>): (data: seq<Byte>)
    requires OutputShape(o) && |pad| == 29
    ensures |data| == HidReader.ReportSize
  {
    PackI16s(o.analog) + PackI16s(o.rotary) + CoinBytes(o) + PackU16s(o.switches) + [o.systemStatus, o.usbStatus] + pad
  }

  /** The four coin bytes: condition and count of each slot. */
  function CoinBytes(o: OutputT): seq<Byte>
    requires |o.coin| == 2
  {
    [CoinValue(o.coin[0].condition), o.coin[0].count, CoinValue(o.coin[1].condition), o.coin[1].count]
  }

  /** Decoding what the board laid out gives back every field. */
  lemma ParseEncodeRoundTrip(o: OutputT, pad: seq<Byte>)
    requires OutputShape(o) && |pad| == 29
    ensures ParseOutputT(EncodeOutputT(o, pad)) == Ok(o)
  {
    var data := EncodeOutputT(o, pad);
    EncodeWords(o, pad);
    EncodeBytes(o, pad);
    CoinConditionRoundTrip(o.coin[0].condition);
    CoinConditionRoundTrip(o.coin[1].condition);
    assert o.coin == [o.coin[0], o.coin[1]];
  }

  /** The three runs of 16-bit words read back. */
  lemma EncodeWords(o: OutputT, pad: seq<Byte>)
    requires OutputShape(o) && |pad| == 29
    ensures var data := EncodeOutputT(o, pad);
      I16s(data, 0, 8) == o.analog && I16s(data, 16, 4) == o.rotary && U16s(data, 28, 2) == o.switches
  {
    var coins := CoinBytes(o);
    var tail := [o.systemStatus, o.usbStatus] + pad;
    var data := EncodeOutputT(o, pad);
    assert data == PackI16s(o.analog) + PackI16s(o.rotary) + coins + PackU16s(o.switches) + tail;
    assert data == [] + PackI16s(o.analog) + (PackI16s(o.rotary) + coins + PackU16s(o.switches) + tail);
    assert data == PackI16s(o.analog) + PackI16s(o.rotary) + (coins + PackU16s(o.switches) + tail);
    I16sRoundTrip([], o.analog, PackI16s(o.rotary) + coins + PackU16s(o.switches) + tail);
    I16sRoundTrip(PackI16s(o.analog), o.rotary, coins + PackU16s(o.switches) + tail);
    U16sRoundTrip(PackI16s(o.analog) + PackI16s(o.rotary) + coins, o.switches, tail);
  }

  /** The coin bytes and the two status bytes sit where the parser reads them. */
  lemma EncodeBytes(o: OutputT, pad: seq<Byte>)
    requires OutputShape(o) && |pad| == 29
    ensures var data := EncodeOutputT(o, pad);
      data[24..28] == CoinBytes(o) && data[32] == o.systemStatus && data[33] == o.usbStatus
  {
    var data := EncodeOutputT(o, pad);
    var pre := PackI16s(o.analog) + PackI16s(o.rotary);
    assert |pre| == 24;
    assert data == pre + CoinBytes(o) + PackU16s(o.switches) + [o.systemStatus, o.usbStatus] + pad;
  }

  /** Where both decoders accept a report they agree on the fields the
      service uses; the service's reader accepts every 63-byte buffer. */
  lemma ParseOutputAgrees(data: seq<Byte>)
    requires |data| == HidReader.ReportSize
    ensures HidReader.ParseHidData(data).Ok?
    ensures ParseOutputT(data).Ok? ==>
      var o := ParseOutputT(data).value;
      var rep := HidReader.ParseHidData(data).value;
      o.rotary == rep.rotary && o.switches == rep.switches && o.systemStatus == rep.systemStatus
  {
  }

  /** A coin condition byte out of range is rejected here but not by the
      service's reader. */
  lemma CoinJamOnlyHere(data: seq<Byte>)
    requires |data| == HidReader.ReportSize && data[24] == 4
    ensures ParseOutputT(data) == Err(ValueError)
    ensures HidReader.ParseHidData(data).Ok?
  {
  }

  /** `data_changed`: the first report always counts as a change; after
      that, a difference in any of the six fields does. */
  function DataChanged(last: Option<OutputT>, current: OutputT): (r: bool)
    ensures r <==> last != Some(current)
  {
    if last.None? then true
    else
      var o := last.value;
      o.analog != current.analog || o.rotary != current.rotary || o.coin != current.coin
      || o.switches != current.switches || o.systemStatus != current.systemStatus
      || o.usbStatus != current.usbStatus
  }

  /** One round of `read_hid_device`: an empty read is skipped, a buffer
      that does not decode ends the loop with the error, and a decoded
      report that differs from the cached one prints `rotary[1]` and
      replaces the cache. */
  function ReadRound(last: Option<OutputT>, data: seq<Byte>): Result<(Option<OutputT>, Option<int>)> {
    if |data| == 0 then Ok((last, None))
    else
      match ParseOutputT(data)
      case Err(e) => Err(e)
      case Ok(current) =>
        if DataChanged(last, current) then Ok((Some(current), Some(current.rotary[1]))) else Ok((last, None))
  }

  /** The values `read_hid_device` prints for a series of reads, or the
      error that ends it. */
  function ReadTrace(last: Option<OutputT>, polls: seq<seq<Byte>>): Result<seq<int>>
    decreases |polls|
  {
    if |polls| == 0 then Ok([])
    else
      match ReadRound(last, polls[0])
      case Err(e) => Err(e)
      case Ok((last', printed)) =>
        match ReadTrace(last', polls[1..])
        case Err(e) => Err(e)
        case Ok(rest) => Ok((if printed.Some? then [printed.value] else []) + rest)
  }

  /** The printed values so far in front of the rest of a trace. */
  function Prepend(printed: seq<int>, rest: Result<seq<int>>): Result<seq<int>> {
    match rest
    case Err(e) => Err(e)
    case Ok(more) => Ok(printed + more)
  }

  /** `read_hid_device` over a finite series of reads. */
  method ReadHidDevice(polls: seq<seq<Byte>>) returns (r: Result<seq<int>>)
    ensures r == ReadTrace(None, polls)
  {
    var lastData: Option<OutputT> := None;
    var printed: seq<int> := [];
    var i := 0;
    assert polls[0..] == polls;
    assert forall more: seq<int> :: [] + more == more;
    while i < |polls|
      invariant 0 <= i <= |polls|
      invariant ReadTrace(None, polls) == Prepend(printed, ReadTrace(lastData, polls[i..]))
    {
      var data := polls[i];
      assert polls[i..][0] == data && polls[i..][1..] == polls[i + 1..];
      if |data| > 0 {
        var current := ParseOutputT(data);
        if current.Err? {
          return Err(current.error);
        }
        if DataChanged(lastData, current.value) {
          var v := current.value.rotary[1];
          assert forall more: seq<int> :: printed + ([v] + more) == (printed + [v]) + more;
          printed := printed + [v];
          lastData := Some(current.value);
        } else {
          assert forall more: seq<int> :: [] + more == more;
        }
      } else {
        assert forall more: seq<int> :: [] + more == more;
      }
      i := i + 1;
    }
    assert printed + [] == printed;
    r := Ok(printed);
  }

  /** A report is printed once however often it is read in a row. */
  lemma {:induction false} RepeatsPrintOnce(last: Option<OutputT>, data: seq<Byte>, n: nat)
    requires ParseOutputT(data).Ok?
    ensures ReadTrace(last, Repeat(data, n + 1))
         == Ok(if last == Some(ParseOutputT(data).value) then [] else [ParseOutputT(data).value.rotary[1]])
    decreases n
  {
    var o := ParseOutputT(data).value;
    var polls := Repeat(data, n + 1);
    assert polls[0] == data && polls[1..] == Repeat(data, n);
    var printed: seq<int> := if last == Some(o) then [] else [o.rotary[1]];
    assert ReadRound(last, data) == Ok((Some(o), if last == Some(o) then None else Some(o.rotary[1])));
    if n > 0 {
      RepeatsPrintOnce(Some(o), data, n - 1);
    }
    assert ReadTrace(Some(o), Repeat(data, n)) == Ok([]);
    assert printed + [] == printed;
  }

  function Repeat(data: seq<Byte>, n: nat): (r: seq<seq<Byte>>)
    ensures |r| == n && forall i :: 0 <= i < n ==> r[i] == data
  {
    if n == 0 then [] else [data] + Repeat(data, n - 1)
  }

  // ---- the 24-byte report of the monitor ----

  /** The five values `parse_output_data` returns. */
  datatype OutputData = OutputData(buttons: seq<Byte>, lever: int, scan: Byte, aimiId: seq<Byte>, optButton: Byte)

  /** `parse_output_data`: `struct.unpack('<10BhB10BB', data[:24])`; a
      buffer shorter than 24 bytes is a `struct.error`. */
  function ParseOutputData(data: seq<Byte>): (r: Result<OutputData>)
    ensures r.Ok? <==> |data| >= 24
    ensures r.Err? ==> r.error == StructError
    ensures r.Ok? ==> |r.value.buttons| == 10 && |r.value.aimiId| == 10 && -0x8000 <= r.value.lever < 0x8000
  {
    if |data| < 24 then Err(StructError)
    else Ok(OutputData(data[..10], I16At(data, 10), data[12], data[13..23], data[23]))
  }

  /** Only the first 24 bytes are read. */
  lemma ParseOutputDataPrefix(data: seq<Byte>)
    requires |data| >= 24
    ensures ParseOutputData(data) == ParseOutputData(data[..24])
  {
    var p := data[..24];
    assert p[..10] == data[..10] && p[13..23] == data[13..23];
    assert p[10] == data[10] && p[11] == data[11] && p[12] == data[12] && p[23] == data[23];
  }

  function EncodeOutputData(d: OutputData, rest: seq<Byte>): (data: seq<Byte>)
    requires |d.buttons| == 10 && |d.aimiId| == 10 && -0x8000 <= d.lever < 0x8000
    ensures |data| == 24 + |rest|
  {
    d.buttons + PackI16(d.lever) + [d.scan] + d.aimiId + [d.optButton] + rest
  }

  lemma ParseOutputDataRoundTrip(d: OutputData, rest: seq<Byte>)
    requires |d.buttons| == 10 && |d.aimiId| == 10 && -0x8000 <= d.lever < 0x8000
    ensures ParseOutputData(EncodeOutputData(d, rest)) == Ok(d)
  {
    var data := EncodeOutputData(d, rest);
    assert data[..10] == d.buttons;
    assert data[10..12] == PackI16(d.lever);
    I16RoundTrip(d.lever);
    assert data[13..23] == d.aimiId;
  }

  /** One round of `monitor_hid_device`: a read that differs from the
      previous one and holds at least 24 bytes is decoded and its lever
      value printed; the read is cached in every case. */
  function MonitorRound(last: Option<seq<Byte>>, data: seq<Byte>): (r: (Option<seq<Byte>>, Option<int>))
    ensures r.0 == Some(data)
    ensures r.1.Some? <==> last != Some(data) && |data| >= 24
    ensures r.1.Some? ==> ParseOutputData(data) == Ok(ParseOutputData(data).value) && r.1.value == ParseOutputData(data).value.lever
  {
    if last != Some(data) && |data| > 0 && |data| >= 24 then (Some(data), Some(ParseOutputData(data).value.lever))
    else (Some(data), None)
  }

  /** The same read twice in a row prints at most once. */
  lemma MonitorRepeat(last: Option<seq<Byte>>, data: seq<Byte>)
    ensures MonitorRound(MonitorRound(last, data).0, data).1 == None
  {
  }
}
