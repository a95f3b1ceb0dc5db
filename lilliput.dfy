/** The Lilliput monitor driver: text commands to UDP frames
    `5A len 00 20 01 FF 00 00 opcode params.. checksum DD`, and reply frames
    back to named values. */
module Lilliput {
  import opened Base
  import opened Text
  import opened Bytes
  import opened Scanner
  import opened Registry
  import opened Commands

  /** The driver's default name. */
  const DefaultName := "LilliputMonitor"

  const StartByte: byte := 0x5A
  const EndByte: byte := 0xDD

  /** The six fixed bytes between the length byte and the opcode. */
  const Header: seq<byte> := [0x00, 0x20, 0x01, 0xFF, 0x00, 0x00]

  /** Everything of a write frame before its checksum. */
  function WriteBody(code: nat, params: seq<nat>): seq<byte>
  {
    [StartByte, Low8(|params| + 11)] + Header + [Low8(code)] + ToBytes(params)
  }

  /** The frame `setCommand` sends. */
  function WriteFrame(code: nat, params: seq<nat>): (f: seq<byte>)
    ensures |f| == |params| + 11
    ensures f[0] == StartByte && f[1] == (|params| + 11) % 256 && f[2..8] == Header && f[8] == code % 256
    ensures f[9..|params| + 9] == ToBytes(params)
    ensures f[|params| + 9] == Checksum(f[..|params| + 9]) && f[|params| + 10] == EndByte
  {
    var head := [StartByte, Low8(|params| + 11)] + Header + [Low8(code)];
    var body := WriteBody(code, params);
    assert body == head + ToBytes(params);
    var f := body + [Checksum(body), EndByte];
    assert f[..|params| + 9] == body;
    assert f[9..|params| + 9] == body[9..];
    f
  }

  /** The frame `getCommand` sends, built in the source by its own code. */
  function ReadFrame(code: nat): (f: seq<byte>)
    ensures |f| == 11
    ensures f[0] == StartByte && f[1] == 11 && f[2..8] == Header && f[8] == code % 256
    ensures f[9] == Checksum(f[..9]) && f[10] == EndByte
  {
    var body := [StartByte, 11] + Header + [Low8(code)];
    var f := body + [Checksum(body), EndByte];
    assert f[..9] == body;
    f
  }

  /** The layout of the part before the checksum: N parameters give N + 9
      bytes, the length byte is N + 11 truncated to 8 bits, and the opcode and
      every parameter are truncated to 8 bits, never range-checked. */
  lemma WriteBodyLayout(code: nat, params: seq<nat>)
    ensures var b, n := WriteBody(code, params), |params|;
      && |b| == n + 9
      && b[0] == 0x5A && b[1] == (n + 11) % 256
      && b[2..8] == [0x00, 0x20, 0x01, 0xFF, 0x00, 0x00]
      && b[8] == code % 256
      && b[9..] == ToBytes(params)
      && (forall k :: 0 <= k < n ==> b[9 + k] == params[k] % 256)
  {
    var b := WriteBody(code, params);
    var head := [StartByte, Low8(|params| + 11)] + Header + [Low8(code)];
    assert b == head + ToBytes(params);
    assert b[2..8] == head[2..8] == Header;
    assert b[9..] == ToBytes(params);
    ParamBytes(b, params);
  }

  lemma ParamBytes(b: seq<byte>, params: seq<nat>)
    requires |b| == |params| + 9 && b[9..] == ToBytes(params)
    ensures forall k :: 0 <= k < |params| ==> b[9 + k] == params[k] % 256
  {
    forall k | 0 <= k < |params| ensures b[9 + k] == params[k] % 256 {
      assert b[9 + k] == b[9..][k];
    }
  }

  /** The layout of a write frame: the body, then the checksum of every byte
      before it masked to 8 bits, then 0xDD; N + 11 bytes in all, so the
      length byte equals the frame length exactly when that is below 256. */
  lemma WriteFrameLayout(code: nat, params: seq<nat>)
    ensures var f, n := WriteFrame(code, params), |params|;
      && |f| == n + 11
      && f[..n + 9] == WriteBody(code, params)
      && f[n + 9] == Checksum(f[..n + 9])
      && f[n + 10] == 0xDD
      && (n + 11 < 256 ==> f[1] == |f|)
  {
    WriteBodyLayout(code, params);
    var f, body := WriteFrame(code, params), WriteBody(code, params);
    var n := |params|;
    assert f[..n + 9] == body;
    assert f[n + 9] == Checksum(body);
    assert Checksum(f[..n + 9]) == Checksum(body);
  }

  /** A read frame is the write frame with no parameters. */
  lemma ReadFrameIsEmptyWrite(code: nat)
    ensures ReadFrame(code) == WriteFrame(code, [])
  {
    assert ToBytes([]) == [];
    assert WriteBody(code, []) == [StartByte, 11] + Header + [Low8(code)];
  }

  /** The source's frame building for a write: successive appends to
      `commandStr`, then the checksum loop, then the trailer. */
  method AssembleWrite(code: nat, params: seq<nat>) returns (commandStr: seq<byte>)
    ensures commandStr == WriteFrame(code, params)
  {
    commandStr := [StartByte];
    commandStr := commandStr + [Low8(|params| + 11)];
    commandStr := commandStr + Header;
    commandStr := commandStr + [Low8(code)];
    ghost var head := commandStr;
    for k := 0 to |params|
      invariant commandStr == head + ToBytes(params[..k])
    {
      assert ToBytes(params[..k + 1]) == ToBytes(params[..k]) + [Low8(params[k])];
      commandStr := commandStr + [Low8(params[k])];
    }
    assert params[..|params|] == params;
    assert commandStr == WriteBody(code, params);
    var chs := SumFrom(commandStr, 0);
    assert commandStr[0..] == commandStr;
    chs := chs % 256;
    commandStr := commandStr + [chs];
    commandStr := commandStr + [EndByte];
  }

  /** The same for a read, with its fixed length byte 11. */
  method AssembleRead(code: nat) returns (commandStr: seq<byte>)
    ensures commandStr == ReadFrame(code)
  {
    commandStr := [StartByte];
    commandStr := commandStr + [0 + 11];
    commandStr := commandStr + Header;
    commandStr := commandStr + [Low8(code)];
    assert commandStr == [StartByte, 11] + Header + [Low8(code)];
    var chs := SumFrom(commandStr, 0);
    assert commandStr[0..] == commandStr;
    chs := chs % 256;
    commandStr := commandStr + [chs];
    commandStr := commandStr + [EndByte];
  }

  /** `setCommand`: the frame when the write resolves, else nothing. */
  function WriteCommand(reg: Registry, opts: Options, name: string, params: seq<string>): (r: Option<Encoded>)
    requires WriteDefined(reg, name, params)
    ensures r.Some? <==> WritePlan(reg, opts.wDuration, name, params).Some?
    ensures r.Some? ==>
      var p, f := WritePlan(reg, opts.wDuration, name, params).value, r.value.frame;
      && |f| == |params| + 11 && f[8] == p.code % 256 && f[9..|params| + 9] == ToBytes(p.params)
      && f == WriteFrame(p.code, p.params) && r.value.duration == p.duration
  {
    match WritePlan(reg, opts.wDuration, name, params)
    case None => None
    case Some(p) => Some(Encoded(WriteFrame(p.code, p.params), p.duration))
  }

  /** `getCommand`: the frame when the opcode resolves, else nothing. */
  function ReadCommand(reg: Registry, opts: Options, name: string): (r: Option<Encoded>)
    ensures r.Some? <==> ReadPlan(reg, opts.rDuration, name).Some?
    ensures r.Some? ==>
      var p := ReadPlan(reg, opts.rDuration, name).value;
      && |r.value.frame| == 11 && r.value.frame[8] == p.code % 256
      && r.value.frame == ReadFrame(p.code) && r.value.duration == p.duration
  {
    match ReadPlan(reg, opts.rDuration, name)
    case None => None
    case Some(p) => Some(Encoded(ReadFrame(p.code), p.duration))
  }

  predicate IsSpecial(cmd: string)
  {
    |cmd| > 0 && cmd[0] == '#'
  }

  /** The inputs `encode` handles without a TypeError. */
  predicate EncodeDefined(reg: Registry, cmd: string)
  {
    var m := MatchCommand(cmd);
    !IsSpecial(cmd) && m.Some? && !m.value.query ==>
      WriteDefined(reg, m.value.name, Parameters(m.value.rest))
  }

  /** `encode`: special commands go to the base driver; otherwise the scanner
      picks the name, the mode and the parameters, and a read or a write is
      encoded into a command object. */
  function EncodeCommand(driver: string, reg: Registry, opts: Options, cmd: string): (r: Encoding)
    requires EncodeDefined(reg, cmd)
    ensures r.Special? <==> IsSpecial(cmd)
    ensures r.Unparsed? <==> !IsSpecial(cmd) && forall k :: 0 <= k < |cmd| ==> !IsWordChar(cmd[k])
    ensures r.Parsed? ==> r.obj.name == driver && r.obj.command == cmd
  {
    if IsSpecial(cmd) then Special
    else match MatchCommand(cmd)
      case None => Unparsed
      case Some(m) =>
        var encoded :=
          if m.query then ReadCommand(reg, opts, m.name)
          else WriteCommand(reg, opts, m.name, Parameters(m.rest));
        Parsed(CommandObject(driver, cmd, encoded))
  }

  /** What `encode` promises: no object exactly when the command has no word
      character; otherwise an object with the driver's name and the command
      text, where a failed encoding only leaves out the frame; a '?' right
      after the name selects a read, anything else a write of the trimmed
      comma-separated parameters. */
  lemma EncodeShape(driver: string, reg: Registry, opts: Options, cmd: string)
    requires EncodeDefined(reg, cmd) && !IsSpecial(cmd)
    ensures EncodeCommand(driver, reg, opts, cmd).Unparsed? <==>
      forall k :: 0 <= k < |cmd| ==> !IsWordChar(cmd[k])
    ensures EncodeCommand(driver, reg, opts, cmd).Parsed? ==>
      var obj, m := EncodeCommand(driver, reg, opts, cmd).obj, MatchCommand(cmd).value;
      && obj.name == driver && obj.command == cmd
      && (m.query ==> obj.encoded == ReadCommand(reg, opts, m.name))
      && (!m.query ==> obj.encoded == WriteCommand(reg, opts, m.name, Parameters(m.rest)))
  {
    MatchNone(cmd);
  }

  /** A write to a registered command whose mode lacks 'w' yields no frame,
      while a read of it does whenever its opcode is numeric. */
  lemma WriteNeedsWriteMode(reg: Registry, opts: Options, name: string, params: seq<string>)
    requires FindByName(reg, name).Some?
    requires 'w' !in reg[FindByName(reg, name).value].mode
    requires AttrNumber(reg[FindByName(reg, name).value].code).Some?
    ensures WriteDefined(reg, name, params) && WriteCommand(reg, opts, name, params).None?
    ensures ReadCommand(reg, opts, name).Some?
  {
    ReadIgnoresMode(reg, opts.wDuration, name, params);
  }

  /** Durations: a registered command's override when present, else the
      driver option. */
  lemma Durations(reg: Registry, opts: Options, name: string, params: seq<string>)
    requires WriteDefined(reg, name, params)
    ensures WriteCommand(reg, opts, name, params).Some? ==>
      WriteCommand(reg, opts, name, params).value.duration ==
        match FindByName(reg, name)
        case Some(k) => Duration(reg[k].wDuration, opts.wDuration)
        case None => Some(opts.wDuration)
    ensures ReadCommand(reg, opts, name).Some? ==>
      ReadCommand(reg, opts, name).value.duration ==
        match FindByName(reg, name)
        case Some(k) => Duration(reg[k].rDuration, opts.rDuration)
        case None => Some(opts.rDuration)
  {
  }

  // ---------------------------------------------------------------- decoding

  /** `data.indexOf(0x5A)`. */
  function StartOf(data: seq<byte>): (r: Option<nat>)
    ensures r.Some? ==> r.value < |data| && data[r.value] == StartByte
    ensures r.Some? ==> forall j :: 0 <= j < r.value ==> data[j] != StartByte
    ensures r.None? ==> forall j :: 0 <= j < |data| ==> data[j] != StartByte
  {
    FindFirst(data, b => b == StartByte)
  }

  /** The payload `trimed.subarray(9, dlength - 2)`, where the length byte
      `trimed[1]` is `undefined` for a one-byte buffer (a NaN end, read as 0). */
  function PayloadOf(t: seq<byte>): seq<byte>
  {
    match ByteAt(t, 1)
    case None => []
    case Some(len) => Subarray(t, 9, len as int - 2)
  }

  /** The inputs `decode` handles without a TypeError, given the buffer
      from the first 0x5A on. */
  predicate TrimmedDefined(reg: Registry, t: seq<byte>)
  {
    ReadingDefined(reg, ByteAt(t, 8), PayloadOf(t))
  }

  predicate DecodeDefined(reg: Registry, data: seq<byte>)
  {
    StartOf(data).Some? ==> TrimmedDefined(reg, data[StartOf(data).value..])
  }

  /** The rest of `decode` once the buffer `t` starts at the first 0x5A of
      `raw`: the opcode at offset 8 and the payload, which the registry maps
      to a name and a value. The Lilliput reply carries no status. */
  function DecodeTrimmed(driver: string, reg: Registry, raw: seq<byte>, t: seq<byte>): Response
    requires TrimmedDefined(reg, t)
  {
    var reading := Interpret(reg, ByteAt(t, 8), PayloadOf(t));
    Response(driver, raw, None, reading.req, reading.value)
  }

  /** `decode`: nothing without a 0x5A, else the frame from there on. */
  function DecodeResponse(driver: string, reg: Registry, data: seq<byte>): (r: Option<Response>)
    requires DecodeDefined(reg, data)
    ensures r.None? <==> forall k :: 0 <= k < |data| ==> data[k] != StartByte
    ensures r.Some? ==> r.value.name == driver && r.value.raw == data && r.value.status.None?
  {
    match StartOf(data)
    case None => None
    case Some(start) => Some(DecodeTrimmed(driver, reg, data, data[start..]))
  }

  /** Bytes before the first 0x5A are ignored: prepending bytes other than
      0x5A changes only the raw buffer of the response. */
  lemma DecodeSkipsNoise(driver: string, reg: Registry, noise: seq<byte>, data: seq<byte>)
    requires forall k :: 0 <= k < |noise| ==> noise[k] != 0x5A
    requires DecodeDefined(reg, data)
    ensures DecodeDefined(reg, noise + data)
    ensures DecodeResponse(driver, reg, noise + data).None? == DecodeResponse(driver, reg, data).None?
    ensures DecodeResponse(driver, reg, data).Some? ==>
      DecodeResponse(driver, reg, noise + data).value == DecodeResponse(driver, reg, data).value.(raw := noise + data)
  {
    StartSkipsNoise(noise, data);
    match StartOf(data)
    case None =>
    case Some(s) =>
      var t := data[s..];
      assert (noise + data)[|noise| + s..] == t;
      NoiseDefined(reg, noise + data, |noise| + s, t);
  }

  lemma StartSkipsNoise(noise: seq<byte>, data: seq<byte>)
    requires forall k :: 0 <= k < |noise| ==> noise[k] != 0x5A
    ensures StartOf(data).None? ==> StartOf(noise + data).None?
    ensures StartOf(data).Some? ==> StartOf(noise + data) == Some(|noise| + StartOf(data).value)
  {
    FindFirstSkip(noise, data, b => b == StartByte);
  }

  lemma NoiseDefined(reg: Registry, data: seq<byte>, s: nat, t: seq<byte>)
    requires StartOf(data) == Some(s) && data[s..] == t && TrimmedDefined(reg, t)
    ensures DecodeDefined(reg, data)
  {
  }

  /** Where the payload lies: with a full header and a length byte `L` of at
      least 11 it is the bytes `[9, L - 2)`, clamped to the buffer; a length
      byte of 0 or 1 makes the end negative, which counts back from the end
      of the buffer. */
  lemma PayloadSlice(t: seq<byte>)
    requires |t| >= 9
    ensures 11 <= t[1] ==> PayloadOf(t) == t[9..if t[1] - 2 <= |t| then t[1] - 2 else |t|]
    ensures 2 <= t[1] < 11 ==> PayloadOf(t) == []
    ensures t[1] < 2 && |t| + t[1] - 2 > 9 ==> PayloadOf(t) == t[9..|t| + t[1] - 2]
  {
  }

  /** Decoding a frame laid out like a write frame recovers its opcode byte
      and its parameter bytes. */
  lemma DecodeFrame(driver: string, reg: Registry, code: nat, params: seq<nat>)
    requires |params| + 11 < 256
    ensures var f := WriteFrame(code, params);
      && StartOf(f) == Some(0)
      && ByteAt(f, 8) == Some(code % 256)
      && PayloadOf(f) == ToBytes(params)
  {
    var f := WriteFrame(code, params);
    WriteFrameLayout(code, params);
    assert StartOf(f) == Some(0);
    assert f[9..|params| + 9] == ToBytes(params);
  }

  /** Hence a frame laid out like a write frame decodes to what the registry
      makes of its opcode and parameter bytes. */
  lemma DecodeWriteFrame(driver: string, reg: Registry, code: nat, params: seq<nat>)
    requires |params| + 11 < 256
    requires ReadingDefined(reg, Some(code % 256), ToBytes(params))
    ensures DecodeDefined(reg, WriteFrame(code, params))
    ensures var reading := Interpret(reg, Some(code % 256), ToBytes(params));
      DecodeResponse(driver, reg, WriteFrame(code, params)) ==
        Some(Response(driver, WriteFrame(code, params), None, reading.req, reading.value))
  {
    DecodeFrame(driver, reg, code, params);
    var f := WriteFrame(code, params);
    assert f[0..] == f;
  }

  /** A Lilliput monitor driver: its name, its registry and its options, and
      the record of every result it has emitted. */
  class LilliputD {
    const name: string
    const registry: Registry
    const options: Options
    ghost var events: seq<Response>

    constructor(name: string, registry: Registry, options: Options)
      ensures this.name == name && this.registry == registry && this.options == options
      ensures events == []
    {
      this.name := name;
      this.registry := registry;
      this.options := options;
      events := [];
    }

    method SetCommand(cmdName: string, parameters: seq<string>) returns (enc: Option<Encoded>)
      requires WriteDefined(registry, cmdName, parameters)
      ensures enc == WriteCommand(registry, options, cmdName, parameters)
    {
      var plan := WritePlan(registry, options.wDuration, cmdName, parameters);
      if plan.None? {
        return None;
      }
      var frame := AssembleWrite(plan.value.code, plan.value.params);
      enc := Some(Encoded(frame, plan.value.duration));
    }

    method GetCommand(cmdName: string) returns (enc: Option<Encoded>)
      ensures enc == ReadCommand(registry, options, cmdName)
    {
      var plan := ReadPlan(registry, options.rDuration, cmdName);
      if plan.None? {
        return None;
      }
      var frame := AssembleRead(plan.value.code);
      enc := Some(Encoded(frame, plan.value.duration));
    }

    method Encode(cmd: string) returns (r: Encoding)
      requires EncodeDefined(registry, cmd)
      ensures r == EncodeCommand(name, registry, options, cmd)
    {
      if IsSpecial(cmd) {
        return Special;
      }
      var res := MatchCommand(cmd);
      if res.None? {
        return Unparsed;
      }
      var parama := Parameters(res.value.rest);
      var enc: Option<Encoded>;
      if res.value.query {
        enc := GetCommand(res.value.name);
      } else {
        enc := SetCommand(res.value.name, parama);
      }
      r := Parsed(CommandObject(name, cmd, enc));
    }

    /** Decodes one buffer and emits the result, exactly once, when there is
        one. */
    method Decode(data: seq<byte>) returns (r: Option<Response>)
      requires DecodeDefined(registry, data)
      modifies this
      ensures r == DecodeResponse(name, registry, data)
      ensures events == old(events) + (if r.Some? then [r.value] else [])
    {
      var start := StartOf(data);
      if start.None? {
        return None;
      }
      var trimed := data[start.value..];
      var dlength := ByteAt(trimed, 1);
      var rcmd := ByteAt(trimed, 8);
      var valbuff := if dlength.None? then [] else Subarray(trimed, 9, dlength.value as int - 2);
      var reading := MapReading(registry, rcmd, valbuff);
      var result := Response(name, data, None, reading.req, reading.value);
      events := events + [result];
      r := Some(result);
    }
  }
}
