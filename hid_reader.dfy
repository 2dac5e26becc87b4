/** The standalone io4 reader: the 63-byte `output_t` report, the fields it
    forwards to the server, and the change detection that keeps it from
    forwarding a report it has already forwarded. */
module HidReader {
  import opened Wire

  /** The byte size of `'<8h 4h 2B 2B 2H 2B 29x'`. */
  const ReportSize: nat := 63

  /** The three fields `parse_hid_data` extracts. */
  datatype HidReport = HidReport(rotary: seq<int>, switches: seq<int>, systemStatus: Byte)

  /** Four signed 16-bit rotary values and two unsigned 16-bit switch words. */
  predicate ReportShape(r: HidReport) {
    && |r.rotary| == 4 && (forall i :: 0 <= i < 4 ==> -0x8000 <= r.rotary[i] < 0x8000)
    && |r.switches| == 2 && (forall i :: 0 <= i < 2 ==> 0 <= r.switches[i] < 0x1_0000)
  }

  type Report = r: HidReport | ReportShape(r) witness HidReport([0, 0, 0, 0], [0, 0], 0)

  /** `parse_hid_data`: unpack the whole report (a buffer of any other size
      is a `struct.error`) and keep the rotary words (bytes 16..23), the
      switch words (bytes 28..31) and the system status (byte 32). */
  function ParseHidData(data: seq<Byte>): (r: Result<Report>)
    ensures r.Ok? <==> |data| == ReportSize
    ensures r.Err? ==> r.error == StructError
  {
    if |data| != ReportSize then Err(StructError)
    else
      var rep: Report := HidReport(I16s(data, 16, 4), U16s(data, 28, 2), data[32]);
      Ok(rep)
  }

  /** The forwarded fields depend on those eleven bytes only: analog
      values, coin data, USB status and padding may differ. */
  lemma ParseHidDataFrame(d1: seq<Byte>, d2: seq<Byte>)
    requires |d1| == ReportSize && |d2| == ReportSize
    requires d1[16..24] == d2[16..24] && d1[28..33] == d2[28..33]
    ensures ParseHidData(d1) == ParseHidData(d2)
  {
    forall i | 16 <= i < 24 ensures d1[i] == d2[i] {
      assert d1[i] == d1[16..24][i - 16];
    }
    forall i | 28 <= i < 33 ensures d1[i] == d2[i] {
      assert d1[i] == d1[28..33][i - 28];
    }
    assert I16s(d1, 16, 4) == I16s(d2, 16, 4);
    assert U16s(d1, 28, 2) == U16s(d2, 28, 2);
  }

  /** The device side: lay a report out as the firmware does, with
      arbitrary bytes for the fields the reader does not keep. */
  function EncodeHidData(rep: Report, analog: seq<Byte>, coin: seq<Byte>, rest: seq<Byte>): (data: seq<Byte>)
    requires |analog| == 16 && |coin| == 4 && |rest| == 30
    ensures |data| == ReportSize
  {
    analog + PackI16s(rep.rotary) + coin + PackU16s(rep.switches) + [rep.systemStatus] + rest
  }

  /** Parsing what the device laid out gives back the report. */
  lemma ParseEncodeRoundTrip(rep: Report, analog: seq<Byte>, coin: seq<Byte>, rest: seq<Byte>)
    requires |analog| == 16 && |coin| == 4 && |rest| == 30
    ensures ParseHidData(EncodeHidData(rep, analog, coin, rest)) == Ok(rep)
  {
    var data := EncodeHidData(rep, analog, coin, rest);
    var tail := coin + PackU16s(rep.switches) + [rep.systemStatus] + rest;
    assert data == analog + PackI16s(rep.rotary) + tail;
    I16sRoundTrip(analog, rep.rotary, tail);
    var pre := analog + PackI16s(rep.rotary) + coin;
    var post := [rep.systemStatus] + rest;
    assert data == pre + PackU16s(rep.switches) + post;
    U16sRoundTrip(pre, rep.switches, post);
    assert data[32] == rep.systemStatus;
  }

  /** One poll of `read_hid_data` as a function of the cached buffer and of
      what the device returned (`None`: no device is open).  A buffer that
      differs from the cache replaces it; a non-empty new buffer is parsed,
      and a parse failure yields nothing (the device is reopened). */
  function ReadStep(cached: Option<seq<Byte>>, read: Option<seq<Byte>>): (r: (Option<seq<Byte>>, Option<Report>))
    ensures read.Some? ==> r.0 == read
    ensures read.None? ==> r == (cached, None)
    ensures r.1.Some? <==> read.Some? && cached != read && |read.value| == ReportSize
    ensures r.1.Some? ==> ParseHidData(read.value) == Ok(r.1.value)
  {
    match read
    case None => (cached, None)
    case Some(data) =>
      if cached != read then
        (read, if |data| > 0 then ParseHidData(data).ToOption() else None)
      else
        (cached, None)
  }

  /** A buffer is forwarded at most once in a row: reading it again right
      after yields nothing. */
  lemma ReadTwice(cached: Option<seq<Byte>>, data: seq<Byte>)
    ensures var r1 := ReadStep(cached, Some(data));
      ReadStep(r1.0, Some(data)) == (Some(data), None)
  {
  }

  /** The reader object; only its buffer cache is modelled. */
  class HidReader {
    var data: Option<seq<Byte>>

    constructor()
      ensures data == None
    {
      data := None;
    }

    /** `read_hid_data`, given what the device read returned. */
    method ReadHidData(read: Option<seq<Byte>>) returns (r: Option<Report>)
      modifies this
      ensures (data, r) == ReadStep(old(data), read)
    {
      r := None;
      if read.None? {
        return;
      }
      var buf := read.value;
      if data != read {
        data := read;
        if |buf| > 0 {
          var parsed := ParseHidData(buf);
          if parsed.Ok? {
            r := Some(parsed.value);
          }
        }
      }
    }
  }
}
