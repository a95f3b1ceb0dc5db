/** The Samsung display driver (MDC, Multiple Display Control): text
    commands to frames `AA opcode id N data.. checksum` addressed to one
    display, and replies back to named values. Decoding looks only at the
    bytes from the first 0xAA on and at the id two bytes after it: the 0xFF
    marker, the length and the checksum of a reply are never checked. */
module Samsung {
  import opened Base
  import opened Text
  import opened Bytes
  import opened Scanner
  import opened Registry
  import opened Commands

  /** The driver's default name and display id. */
  const DefaultName := "SamsungLFD"
  const DefaultId: nat := 0

  const HeaderByte: byte := 0xAA

  /** The acknowledgement byte 'A' of a reply. */
  const AckByte: byte := 0x41

  /** Everything of a write frame before its checksum. */
  function WriteBody(code: nat, id: nat, params: seq<nat>): seq<byte>
  {
    [HeaderByte, Low8(code), Low8(id), Low8(|params|)] + ToBytes(params)
  }

  /** The frame `setCommand` sends: the checksum leaves out the header byte. */
  function WriteFrame(code: nat, id: nat, params: seq<nat>): (f: seq<byte>)
    ensures |f| == |params| + 5
    ensures f[0] == HeaderByte && f[1] == code % 256 && f[2] == id % 256 && f[3] == |params| % 256
    ensures f[4..|params| + 4] == ToBytes(params)
    ensures f[|params| + 4] == Checksum(f[1..|params| + 4])
  {
    var body := WriteBody(code, id, params);
    var f := body + [Checksum(body[1..])];
    assert f[1..|params| + 4] == body[1..];
    assert f[4..|params| + 4] == body[4..];
    f
  }

  /** The frame `getCommand` sends, built in the source by its own code. */
  function ReadFrame(code: nat, id: nat): (f: seq<byte>)
    ensures |f| == 5
    ensures f[0] == HeaderByte && f[1] == code % 256 && f[2] == id % 256 && f[3] == 0
    ensures f[4] == Checksum(f[1..4])
  {
    var body := [HeaderByte, Low8(code), Low8(id), 0x00];
    var f := body + [Checksum(body[1..])];
    assert f[1..4] == body[1..];
    f
  }

  /** The layout of a write frame: N parameters give N + 5 bytes: 0xAA, the
      opcode, the display id, N and the parameters, each truncated to 8 bits,
      then the checksum of the bytes from the opcode on, masked to 8 bits. */
  lemma WriteFrameLayout(code: nat, id: nat, params: seq<nat>)
    ensures var f, n := WriteFrame(code, id, params), |params|;
      && |f| == n + 5
      && f[0] == 0xAA && f[1] == code % 256 && f[2] == id % 256 && f[3] == n % 256
      && f[4..n + 4] == ToBytes(params)
      && (forall k :: 0 <= k < n ==> f[4 + k] == params[k] % 256)
      && f[n + 4] == Checksum(f[1..n + 4])
  {
    var f, body := WriteFrame(code, id, params), WriteBody(code, id, params);
    var n := |params|;
    assert f[..n + 4] == body;
    assert f[4..n + 4] == body[4..] == ToBytes(params);
    assert f[1..n + 4] == body[1..];
    ParamBytes(f, params);
  }

  lemma ParamBytes(f: seq<byte>, params: seq<nat>)
    requires |f| >= |params| + 4 && f[4..|params| + 4] == ToBytes(params)
    ensures forall k :: 0 <= k < |params| ==> f[4 + k] == params[k] % 256
  {
    forall k | 0 <= k < |params| ensures f[4 + k] == params[k] % 256 {
      assert f[4 + k] == f[4..|params| + 4][k];
    }
  }

  /** A read frame is exactly `AA opcode id 00 checksum`: the write frame with
      no parameters. */
  lemma ReadFrameIsEmptyWrite(code: nat, id: nat)
    ensures ReadFrame(code, id) == WriteFrame(code, id, [])
    ensures |ReadFrame(code, id)| == 5
  {
    assert ToBytes([]) == [];
    assert WriteBody(code, id, []) == [HeaderByte, Low8(code), Low8(id), 0x00];
  }

  /** Summing the header too would give another checksum whenever 0xAA
      matters: the two differ by exactly 0xAA modulo 256. */
  lemma ChecksumExcludesHeader(code: nat, id: nat, params: seq<nat>)
    ensures var body := WriteBody(code, id, params);
      Checksum(body) == (Checksum(body[1..]) + 0xAA) % 256
  {
    var body := WriteBody(code, id, params);
    assert body == [HeaderByte] + body[1..];
    SumAppend([HeaderByte], body[1..]);
    SumSingle(HeaderByte);
  }

  /** `setCommand`: the frame when the write resolves, else nothing. */
  function WriteCommand(reg: Registry, opts: Options, id: nat, name: string, params: seq<string>): (r: Option<Encoded>)
    requires WriteDefined(reg, name, params)
    ensures r.Some? <==> WritePlan(reg, opts.wDuration, name, params).Some?
    ensures r.Some? ==>
      var p, f := WritePlan(reg, opts.wDuration, name, params).value, r.value.frame;
      && |f| == |params| + 5 && f[1] == p.code % 256 && f[2] == id % 256
      && f[4..|params| + 4] == ToBytes(p.params)
      && f == WriteFrame(p.code, id, p.params) && r.value.duration == p.duration
  {
    match WritePlan(reg, opts.wDuration, name, params)
    case None => None
    case Some(p) => Some(Encoded(WriteFrame(p.code, id, p.params), p.duration))
  }

  /** `getCommand`: the frame when the opcode resolves, else nothing. */
  function ReadCommand(reg: Registry, opts: Options, id: nat, name: string): (r: Option<Encoded>)
    ensures r.Some? <==> ReadPlan(reg, opts.rDuration, name).Some?
    ensures r.Some? ==>
      var p := ReadPlan(reg, opts.rDuration, name).value;
      && |r.value.frame| == 5 && r.value.frame[1] == p.code % 256 && r.value.frame[2] == id % 256
      && r.value.frame == ReadFrame(p.code, id) && r.value.duration == p.duration
  {
    match ReadPlan(reg, opts.rDuration, name)
    case None => None
    case Some(p) => Some(Encoded(ReadFrame(p.code, id), p.duration))
  }

  predicate IsSpecial(cmd: string)
  {
    |cmd| > 0 && cmd[0] == '#'
  }

  /** The inputs `encode` handles without a TypeError. */
  predicate EncodeDefined(reg: Registry, cmd: string)
  {
    var m := MatchCommand(cmd);
    !IsSpecial(cmd) && m.Some? && !m.value.query ==>
      WriteDefined(reg, m.value.name, Parameters(m.value.rest))
  }

  /** `encode`, as for the Lilliput driver, with frames for display `id`. */
  function EncodeCommand(driver: string, reg: Registry, opts: Options, id: nat, cmd: string): (r: Encoding)
    requires EncodeDefined(reg, cmd)
    ensures r.Special? <==> IsSpecial(cmd)
    ensures r.Unparsed? <==> !IsSpecial(cmd) && forall k :: 0 <= k < |cmd| ==> !IsWordChar(cmd[k])
    ensures r.Parsed? ==> r.obj.name == driver && r.obj.command == cmd
  {
    if IsSpecial(cmd) then Special
    else match MatchCommand(cmd)
      case None => Unparsed
      case Some(m) =>
        var encoded :=
          if m.query then ReadCommand(reg, opts, id, m.name)
          else WriteCommand(reg, opts, id, m.name, Parameters(m.rest));
        Parsed(CommandObject(driver, cmd, encoded))
  }

  /** What `encode` promises: no object exactly when the command has no word
      character; otherwise an object with the driver's name and the command
      text; a '?' after the name selects a read, anything else a write. */
  lemma EncodeShape(driver: string, reg: Registry, opts: Options, id: nat, cmd: string)
    requires EncodeDefined(reg, cmd) && !IsSpecial(cmd)
    ensures EncodeCommand(driver, reg, opts, id, cmd).Unparsed? <==>
      forall k :: 0 <= k < |cmd| ==> !IsWordChar(cmd[k])
    ensures EncodeCommand(driver, reg, opts, id, cmd).Parsed? ==>
      var obj, m := EncodeCommand(driver, reg, opts, id, cmd).obj, MatchCommand(cmd).value;
      && obj.name == driver && obj.command == cmd
      && (m.query ==> obj.encoded == ReadCommand(reg, opts, id, m.name))
      && (!m.query ==> obj.encoded == WriteCommand(reg, opts, id, m.name, Parameters(m.rest)))
  {
    MatchNone(cmd);
  }

  /** Writing to an entry lacking 'w' yields nothing; reading it does not
      depend on the mode. */
  lemma WriteNeedsWriteMode(reg: Registry, opts: Options, id: nat, name: string, params: seq<string>)
    requires FindByName(reg, name).Some?
    requires 'w' !in reg[FindByName(reg, name).value].mode
    requires AttrNumber(reg[FindByName(reg, name).value].code).Some?
    ensures WriteDefined(reg, name, params) && WriteCommand(reg, opts, id, name, params).None?
    ensures ReadCommand(reg, opts, id, name).Some?
  {
    ReadIgnoresMode(reg, opts.wDuration, name, params);
  }

  /** Durations: the registered override when present, else the option. */
  lemma Durations(reg: Registry, opts: Options, id: nat, name: string, params: seq<string>)
    requires WriteDefined(reg, name, params)
    ensures WriteCommand(reg, opts, id, name, params).Some? ==>
      WriteCommand(reg, opts, id, name, params).value.duration ==
        match FindByName(reg, name)
        case Some(k) => Duration(reg[k].wDuration, opts.wDuration)
        case None => Some(opts.wDuration)
    ensures ReadCommand(reg, opts, id, name).Some? ==>
      ReadCommand(reg, opts, id, name).value.duration ==
        match FindByName(reg, name)
        case Some(k) => Duration(reg[k].rDuration, opts.rDuration)
        case None => Some(opts.rDuration)
  {
  }

  // ---------------------------------------------------------------- decoding

  /** `data.indexOf(0xAA)`. */
  function StartOf(data: seq<byte>): (r: Option<nat>)
    ensures r.Some? ==> r.value < |data| && data[r.value] == HeaderByte
    ensures r.Some? ==> forall j :: 0 <= j < r.value ==> data[j] != HeaderByte
    ensures r.None? ==> forall j :: 0 <= j < |data| ==> data[j] != HeaderByte
  {
    FindFirst(data, b => b == HeaderByte)
  }

  /** The reply is addressed to this display: `trimed[2] == this.id`, where
      a missing byte is `undefined` and equals no id. */
  predicate ForMe(t: seq<byte>, id: nat)
  {
    ByteAt(t, 2) == Some(id)
  }

  /** `ack == 'A' ? 'OK' : 'ERR'`; a missing byte reads as NUL, not 'A'. */
  function StatusOf(t: seq<byte>): Status
  {
    if ByteAt(t, 4) == Some(AckByte) then OK else ERR
  }

  /** The payload `trimed.subarray(6, 6 + dlength - 2)`, where a missing
      length byte makes the end NaN, read as 0. */
  function PayloadOf(t: seq<byte>): seq<byte>
  {
    match ByteAt(t, 3)
    case None => []
    case Some(len) => Subarray(t, 6, 6 + len as int - 2)
  }

  /** The inputs `decode` handles without a TypeError, given the buffer
      from the first 0xAA on. */
  predicate TrimmedDefined(reg: Registry, id: nat, t: seq<byte>)
  {
    ForMe(t, id) ==> ReadingDefined(reg, ByteAt(t, 5), PayloadOf(t))
  }

  predicate DecodeDefined(reg: Registry, id: nat, data: seq<byte>)
  {
    StartOf(data).Some? ==> TrimmedDefined(reg, id, data[StartOf(data).value..])
  }

  /** The rest of `decode` once the buffer `t` starts at the first 0xAA of
      `raw`: nothing when the reply is for another display; otherwise the
      status, the opcode at offset 5 and the payload, which the registry maps
      to a name and a value. */
  function DecodeTrimmed(driver: string, reg: Registry, id: nat, raw: seq<byte>, t: seq<byte>): Option<Response>
    requires TrimmedDefined(reg, id, t)
  {
    if !ForMe(t, id) then None
    else
      var reading := Interpret(reg, ByteAt(t, 5), PayloadOf(t));
      Some(Response(driver, raw, Some(StatusOf(t)), reading.req, reading.value))
  }

  /** `decode`: nothing without a 0xAA, else the reply from there on. */
  function DecodeResponse(driver: string, reg: Registry, id: nat, data: seq<byte>): (r: Option<Response>)
    requires DecodeDefined(reg, id, data)
    ensures r.Some? ==> StartOf(data).Some?
    ensures r.Some? ==> r.value.name == driver && r.value.raw == data && r.value.status.Some?
  {
    match StartOf(data)
    case None => None
    case Some(start) => DecodeTrimmed(driver, reg, id, data, data[start..])
  }

  /** Decode yields a response exactly when there is a 0xAA and the byte two
      after the first one is this display's id; the response keeps the buffer
      and its status is OK exactly when the byte four after the 0xAA is 'A'. */
  lemma DecodeFilters(driver: string, reg: Registry, id: nat, data: seq<byte>)
    requires DecodeDefined(reg, id, data)
    ensures DecodeResponse(driver, reg, id, data).Some? <==>
      StartOf(data).Some? && StartOf(data).value + 2 < |data| && data[StartOf(data).value + 2] == id
    ensures DecodeResponse(driver, reg, id, data).Some? ==>
      && DecodeResponse(driver, reg, id, data).value.name == driver
      && DecodeResponse(driver, reg, id, data).value.raw == data
      && (DecodeResponse(driver, reg, id, data).value.status == Some(OK) <==>
            StartOf(data).value + 4 < |data| && data[StartOf(data).value + 4] == 0x41)
  {
    if StartOf(data).Some? {
      var s := StartOf(data).value;
      var t := data[s..];
      if s + 2 < |data| {
        assert t[2] == data[s + 2];
      }
      if s + 4 < |data| {
        assert t[4] == data[s + 4];
      }
    }
  }

  /** Bytes before the first 0xAA are ignored: prepending bytes other than
      0xAA changes only the raw buffer of the response. */
  lemma DecodeSkipsNoise(driver: string, reg: Registry, id: nat, noise: seq<byte>, data: seq<byte>)
    requires forall k :: 0 <= k < |noise| ==> noise[k] != 0xAA
    requires DecodeDefined(reg, id, data)
    ensures DecodeDefined(reg, id, noise + data)
    ensures DecodeResponse(driver, reg, id, noise + data).None? == DecodeResponse(driver, reg, id, data).None?
    ensures DecodeResponse(driver, reg, id, data).Some? ==>
      DecodeResponse(driver, reg, id, noise + data).value ==
        DecodeResponse(driver, reg, id, data).value.(raw := noise + data)
  {
    StartSkipsNoise(noise, data);
    match StartOf(data)
    case None =>
    case Some(s) =>
      var t := data[s..];
      assert (noise + data)[|noise| + s..] == t;
      NoiseDefined(reg, id, noise + data, |noise| + s, t);
      TrimmedRaw(driver, reg, id, data, noise + data, t);
  }

  lemma NoiseDefined(reg: Registry, id: nat, data: seq<byte>, s: nat, t: seq<byte>)
    requires StartOf(data) == Some(s) && data[s..] == t && TrimmedDefined(reg, id, t)
    ensures DecodeDefined(reg, id, data)
  {
  }

  lemma TrimmedRaw(driver: string, reg: Registry, id: nat, raw: seq<byte>, raw': seq<byte>, t: seq<byte>)
    requires TrimmedDefined(reg, id, t)
    ensures DecodeTrimmed(driver, reg, id, raw', t).None? == DecodeTrimmed(driver, reg, id, raw, t).None?
    ensures DecodeTrimmed(driver, reg, id, raw, t).Some? ==>
      DecodeTrimmed(driver, reg, id, raw', t).value == DecodeTrimmed(driver, reg, id, raw, t).value.(raw := raw')
  {
  }

  lemma StartSkipsNoise(noise: seq<byte>, data: seq<byte>)
    requires forall k :: 0 <= k < |noise| ==> noise[k] != 0xAA
    ensures StartOf(data).None? ==> StartOf(noise + data).None?
    ensures StartOf(data).Some? ==> StartOf(noise + data) == Some(|noise| + StartOf(data).value)
  {
    FindFirstSkip(noise, data, b => b == HeaderByte);
  }

  /** Where the payload lies: with a full header and a length byte `L` of at
      least 2 it is the bytes `[6, 6 + L - 2)`, clamped to the buffer; a
      smaller length byte gives an empty payload. */
  lemma PayloadSlice(t: seq<byte>)
    requires |t| >= 6
    ensures 2 <= t[3] ==> PayloadOf(t) == t[6..if 4 + t[3] <= |t| then 4 + t[3] else |t|]
    ensures t[3] < 2 ==> PayloadOf(t) == []
  {
  }

  /** A reply frame as the display sends it: header, 0xFF, the id, the data
      length (acknowledgement, r-cmd and values), 'A' or 'N', the r-cmd, the
      values and the checksum. */
  function ReplyFrame(id: byte, ack: byte, rcmd: byte, values: seq<byte>): seq<byte>
    requires |values| + 2 < 256
  {
    var body := [HeaderByte, 0xFF, id, |values| + 2, ack, rcmd] + values;
    body + [Checksum(body[1..])]
  }

  /** Decoding a reply frame for this display recovers its status, r-cmd and
      values, and the registry maps those. */
  lemma DecodeReply(driver: string, reg: Registry, id: byte, ack: byte, rcmd: byte, values: seq<byte>)
    requires |values| + 2 < 256
    requires ReadingDefined(reg, Some(rcmd), values)
    ensures DecodeDefined(reg, id, ReplyFrame(id, ack, rcmd, values))
    ensures var f, reading := ReplyFrame(id, ack, rcmd, values), Interpret(reg, Some(rcmd), values);
      DecodeResponse(driver, reg, id, f) ==
        Some(Response(driver, f, Some(if ack == 0x41 then OK else ERR), reading.req, reading.value))
  {
    var f := ReplyFrame(id, ack, rcmd, values);
    ReplyLayout(id, ack, rcmd, values);
    DecodeLaidOut(driver, reg, id, f, ack, rcmd, values);
  }

  /** Where the fields of a reply frame lie. */
  lemma ReplyLayout(id: byte, ack: byte, rcmd: byte, values: seq<byte>)
    requires |values| + 2 < 256
    ensures var f := ReplyFrame(id, ack, rcmd, values);
      && |f| == |values| + 7 && f[0] == HeaderByte && f[2] == id && f[3] as int == |values| + 2
      && f[4] == ack && f[5] == rcmd && f[6..|values| + 6] == values
  {
  }

  /** Decoding a buffer laid out as a reply frame for this display. */
  lemma DecodeLaidOut(driver: string, reg: Registry, id: byte, f: seq<byte>, ack: byte, rcmd: byte, values: seq<byte>)
    requires |f| == |values| + 7 && f[0] == HeaderByte && f[2] == id && f[3] as int == |values| + 2
    requires f[4] == ack && f[5] == rcmd && f[6..|values| + 6] == values
    requires ReadingDefined(reg, Some(rcmd), values)
    ensures DecodeDefined(reg, id, f)
    ensures var reading := Interpret(reg, Some(rcmd), values);
      DecodeResponse(driver, reg, id, f) ==
        Some(Response(driver, f, Some(if ack == 0x41 then OK else ERR), reading.req, reading.value))
  {
    assert StartOf(f) == Some(0);
    assert f[0..] == f;
    assert PayloadOf(f) == values;
  }

  /** A Samsung display driver: its name, the id of the display it talks to,
      its registry and options, and the record of every emitted result. */
  class SamsungD {
    const name: string
    const id: nat
    const registry: Registry
    const options: Options
    ghost var events: seq<Response>

    constructor(name: string, id: nat, registry: Registry, options: Options)
      ensures this.name == name && this.id == id && this.registry == registry && this.options == options
      ensures events == []
    {
      this.name := name;
      this.id := id;
      this.registry := registry;
      this.options := options;
      events := [];
    }

    method SetCommand(cmdName: string, parameters: seq<string>) returns (enc: Option<Encoded>)
      requires WriteDefined(registry, cmdName, parameters)
      ensures enc == WriteCommand(registry, options, id, cmdName, parameters)
    {
      var plan := WritePlan(registry, options.wDuration, cmdName, parameters);
      if plan.None? {
        return None;
      }
      var frame := AssembleWrite(plan.value.code, id, plan.value.params);
      enc := Some(Encoded(frame, plan.value.duration));
    }

    method GetCommand(cmdName: string) returns (enc: Option<Encoded>)
      ensures enc == ReadCommand(registry, options, id, cmdName)
    {
      var plan := ReadPlan(registry, options.rDuration, cmdName);
      if plan.None? {
        return None;
      }
      var frame := AssembleRead(plan.value.code, id);
      enc := Some(Encoded(frame, plan.value.duration));
    }

    method Encode(cmd: string) returns (r: Encoding)
      requires EncodeDefined(registry, cmd)
      ensures r == EncodeCommand(name, registry, options, id, cmd)
    {
      if IsSpecial(cmd) {
        return Special;
      }
      var res := MatchCommand(cmd);
      if res.None? {
        return Unparsed;
      }
      var parama := Parameters(res.value.rest);
      var enc: Option<Encoded>;
      if res.value.query {
        enc := GetCommand(res.value.name);
      } else {
        enc := SetCommand(res.value.name, parama);
      }
      r := Parsed(CommandObject(name, cmd, enc));
    }

    /** Decodes one buffer and emits the result, exactly once, when there is
        one; a reply for another display emits nothing. */
    method Decode(data: seq<byte>) returns (r: Option<Response>)
      requires DecodeDefined(registry, id, data)
      modifies this
      ensures r == DecodeResponse(name, registry, id, data)
      ensures events == old(events) + (if r.Some? then [r.value] else [])
    {
      var start := StartOf(data);
      if start.None? {
        return None;
      }
      var trimed := data[start.value..];
      var trimedId := ByteAt(trimed, 2);
      if trimedId != Some(id) {
        return None;
      }
      var dlength := ByteAt(trimed, 3);
      var ack := ByteAt(trimed, 4);
      var status := if ack == Some(AckByte) then OK else ERR;
      var rcmd := ByteAt(trimed, 5);
      var valbuff := if dlength.None? then [] else Subarray(trimed, 6, 6 + dlength.value as int - 2);
      var reading := MapReading(registry, rcmd, valbuff);
      var result := Response(name, data, Some(status), reading.req, reading.value);
      events := events + [result];
      r := Some(result);
    }
  }

  /** The source's frame building for a write: successive appends to
      `commandStr`, then the checksum loop from index 1. */
  method AssembleWrite(code: nat, id: nat, params: seq<nat>) returns (commandStr: seq<byte>)
    ensures commandStr == WriteFrame(code, id, params)
  {
    commandStr := [HeaderByte];
    commandStr := commandStr + [Low8(code)];
    commandStr := commandStr + [Low8(id)];
    commandStr := commandStr + [Low8(|params|)];
    ghost var head := commandStr;
    for k := 0 to |params|
      invariant commandStr == head + ToBytes(params[..k])
    {
      assert ToBytes(params[..k + 1]) == ToBytes(params[..k]) + [Low8(params[k])];
      commandStr := commandStr + [Low8(params[k])];
    }
    assert params[..|params|] == params;
    assert commandStr == WriteBody(code, id, params);
    var chs := SumFrom(commandStr, 1);
    chs := chs % 256;
    commandStr := commandStr + [chs];
  }

  /** The same for a read, whose length byte is 0. */
  method AssembleRead(code: nat, id: nat) returns (commandStr: seq<byte>)
    ensures commandStr == ReadFrame(code, id)
  {
    commandStr := [HeaderByte];
    commandStr := commandStr + [Low8(code)];
    commandStr := commandStr + [Low8(id)];
    commandStr := commandStr + [0x00];
    assert commandStr == [HeaderByte, Low8(code), Low8(id), 0x00];
    var chs := SumFrom(commandStr, 1);
    chs := chs % 256;
    commandStr := commandStr + [chs];
  }
}
