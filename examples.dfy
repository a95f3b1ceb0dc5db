/** Worked examples: the frames the Lilliput driver's own encoder tests
    expect, and the Samsung read frame for the same registry entry. The
    device data file is not part of this model, so the registry entries
    below are reconstructions that agree with those frames. */
module Examples {
  import opened Base
  import opened Text
  import opened Bytes
  import opened Scanner
  import opened Registry
  import opened Commands
  import opened Lilliput
  import Samsung

  /** `status`, read only, opcode 254. */
  const StatusEntry := Command("status", Some("254"), "r", "", "", NoValue)

  /** `audio`, opcode 3, with a volume and two selections. */
  const AudioEntry := Command("audio", Some("3"), "rw", "", "",
    ValueList([ValueDef("volume", NoItems),
               ValueDef("meter", ItemList([Item("Off", Some("0")), Item("Level", Some("16"))])),
               ValueDef("right-left-out", ItemList([Item("1-2", Some("1")), Item("2-1", Some("16"))]))]))

  const Sample: Registry := [StatusEntry, AudioEntry]

  /** `5a0b002001ff0000fe83dd`. */
  const StatusFrame: seq<byte> := [0x5A, 0x0B, 0x00, 0x20, 0x01, 0xFF, 0x00, 0x00, 0xFE, 0x83, 0xDD]

  /** `5a0e002001ff000003321010dddd`. */
  const AudioFrame: seq<byte> := [0x5A, 0x0E, 0x00, 0x20, 0x01, 0xFF, 0x00, 0x00, 0x03, 0x32, 0x10, 0x10, 0xDD, 0xDD]

  /** The sum of two bytes, for the checksums below. */
  lemma SumPair(a: byte, b: byte)
    ensures Sum([a, b]) == a + b
  {
    assert [a, b] == [a] + [b];
    SumAppend([a], [b]);
    SumSingle(a);
    SumSingle(b);
  }

  /** The sum of three bytes, for the checksums below. */
  lemma SumTriple(a: byte, b: byte, c: byte)
    ensures Sum([a, b, c]) == a + b + c
  {
    assert [a, b, c] == [a, b] + [c];
    SumAppend([a, b], [c]);
    SumPair(a, b);
    SumSingle(c);
  }

  /** The six fixed header bytes sum to 0x120, for both Lilliput frame checksums. */
  lemma HeaderSum()
    ensures Sum(Header) == 0x120
  {
    assert Header == [0x00, 0x20, 0x01] + [0xFF, 0x00, 0x00];
    SumAppend([0x00, 0x20, 0x01], [0xFF, 0x00, 0x00]);
    SumTriple(0x00, 0x20, 0x01);
    SumTriple(0xFF, 0x00, 0x00);
  }

  /** The read frame of the status test: opcode 254, no parameters. */
  lemma StatusFrameExample()
    ensures ReadFrame(254) == StatusFrame
  {
    HeaderSum();
    SumPair(0x5A, 0x0B);
    SumSingle(0xFE);
    SumAppend([StartByte, 11], Header);
    SumAppend([StartByte, 11] + Header, [Low8(254)]);
    assert Sum([StartByte, 11] + Header + [Low8(254)]) == 0x283;
  }

  /** The write frame of the audio test: opcode 3 with the bytes 50, 16 and
      16. */
  lemma AudioFrameExample()
    ensures WriteFrame(3, [50, 16, 16]) == AudioFrame
  {
    HeaderSum();
    SumPair(0x5A, 0x0E);
    SumSingle(0x03);
    SumTriple(50, 16, 16);
    assert ToBytes([50, 16, 16]) == [50, 16, 16];
    SumAppend([StartByte, 14], Header);
    SumAppend([StartByte, 14] + Header, [3]);
    SumAppend([StartByte, 14] + Header + [3], [50, 16, 16]);
    assert WriteBody(3, [50, 16, 16]) == [StartByte, 14] + Header + [3] + [50, 16, 16];
    assert Sum(WriteBody(3, [50, 16, 16])) == 0x1DD;
  }

  /** A string with no white space at either end is its own trim. */
  lemma TrimPlain(s: string)
    requires s == [] || (!IsSpace(s[0]) && !IsSpace(s[|s| - 1]))
    ensures Trim(s) == s
  {
  }

  /** The scanner cuts the test commands as the regular expression does. */
  lemma ScanStatus()
    ensures MatchCommand("status?") == Some(Match("status", true, ""))
  {
    var s := "status?";
    FirstWordExact(s, 0);
    WordSpanExact(s, 0, 6);
    ParamSpanExact(s, 7, 7);
    assert ScanAt(s, 0) == Spans(0, 6, true, 7, 7);
    assert s[0..6] == "status";
    assert s[7..7] == "";
  }

  /** "audio 50,Level,2-1" scans as the name and its parameter text. */
  lemma ScanAudio()
    ensures MatchCommand("audio 50,Level,2-1") == Some(Match("audio", false, "50,Level,2-1"))
  {
    var s := "audio 50,Level,2-1";
    AudioChars();
    FirstWordExact(s, 0);
    WordSpanExact(s, 0, 5);
    ParamSpanExact(s, 6, 18);
    assert ScanAt(s, 0) == Spans(0, 5, false, 6, 18);
    AudioSlices();
  }

  /** The two slices of the audio command, for ScanAudio. */
  lemma AudioSlices()
    ensures var s := "audio 50,Level,2-1";
      s[0..5] == "audio" && s[6..18] == "50,Level,2-1"
  {
    var s := "audio 50,Level,2-1";
    forall k | 0 <= k < 12 ensures s[6..18][k] == "50,Level,2-1"[k] {
    }
  }

  /** The character classes of the audio command, for ScanAudio. */
  lemma AudioChars()
    ensures var s := "audio 50,Level,2-1";
      && (forall k :: 0 <= k < 5 ==> IsWordChar(s[k]))
      && s[5] == ' '
      && (forall k :: 6 <= k < 18 ==> IsParamChar(s[k]))
  {
  }

  /** The audio parameter text splits into its three trimmed pieces. */
  lemma AudioParameters()
    ensures Parameters("50,Level,2-1") == ["50", "Level", "2-1"]
  {
    AudioSplit();
    AudioPartsTrimmed();
    UntrimmedParameters("50,Level,2-1", ["50", "Level", "2-1"]);
  }

  /** The three audio pieces are their own trim, for AudioParameters. */
  lemma AudioPartsTrimmed()
    ensures forall k :: 0 <= k < 3 ==> Trim(["50", "Level", "2-1"][k]) == ["50", "Level", "2-1"][k]
  {
    TrimmedLevel();
    TrimmedNumbers();
    ThreeTrimmed("50", "Level", "2-1");
  }

  /** Three pieces that are their own trim, at a symbolic index, for AudioPartsTrimmed. */
  lemma ThreeTrimmed(a: string, b: string, c: string)
    requires Trim(a) == a && Trim(b) == b && Trim(c) == c
    ensures forall k :: 0 <= k < 3 ==> Trim([a, b, c][k]) == [a, b, c][k]
  {
    var parts := [a, b, c];
    forall k | 0 <= k < 3 ensures Trim(parts[k]) == parts[k] {
      assert parts[k] == a || parts[k] == b || parts[k] == c;
    }
  }

  /** "Level" is its own trim, for AudioPartsTrimmed and SampleNames. */
  lemma TrimmedLevel()
    ensures Trim("Level") == "Level"
  {
    TrimPlain("Level");
  }

  /** "50" and "2-1" are their own trim, for AudioPartsTrimmed and SampleNames. */
  lemma TrimmedNumbers()
    ensures Trim("50") == "50" && Trim("2-1") == "2-1"
  {
    TrimPlain("50");
    TrimPlain("2-1");
  }

  /** Pieces that need no trimming are the parameters as they stand. */
  lemma UntrimmedParameters(rest: string, parts: seq<string>)
    requires Split(rest, ',') == parts
    requires forall k :: 0 <= k < |parts| ==> Trim(parts[k]) == parts[k]
    ensures Parameters(rest) == parts
  {
  }

  /** The comma split of the audio parameters, for AudioParameters. */
  lemma AudioSplit()
    ensures Split("50,Level,2-1", ',') == ["50", "Level", "2-1"]
  {
    var parts := ["50", "Level", "2-1"];
    AudioJoin();
    SplitJoin(parts, ',');
  }

  /** The audio pieces joined by commas, for AudioSplit. */
  lemma AudioJoin()
    ensures Join(["50", "Level", "2-1"], ',') == "50,Level,2-1"
  {
    var parts := ["50", "Level", "2-1"];
    assert parts[1..] == ["Level", "2-1"];
    assert ["Level", "2-1"][1..] == ["2-1"];
    assert Join(["2-1"], ',') == "2-1";
    assert Join(["Level", "2-1"], ',') == "Level" + [','] + "2-1";
    assert Join(parts, ',') == "50" + [','] + ("Level" + [','] + "2-1");
  }

  /** A non-empty string of digits is the number it spells. */
  lemma NumberOfDigits(s: string)
    requires s != [] && AllDigits(s)
    ensures JsNumber(s) == Some(DecimalValue(s))
  {
    TrimPlain(s);
  }

  /** The decimal value of one digit, for SampleNumbers. */
  lemma DecimalOneDigit(a: char)
    requires IsDigit(a)
    ensures DecimalValue([a]) == DigitValue(a)
  {
    assert [a][..0] == [];
  }

  /** The decimal value of two digits, for SampleNumbers. */
  lemma DecimalTwoDigits(a: char, b: char)
    requires IsDigit(a) && IsDigit(b)
    ensures DecimalValue([a, b]) == DigitValue(a) * 10 + DigitValue(b)
  {
    assert [a, b][..1] == [a];
    DecimalOneDigit(a);
  }

  /** The decimal value of three digits, for StatusCode. */
  lemma DecimalThreeDigits(a: char, b: char, c: char)
    requires IsDigit(a) && IsDigit(b) && IsDigit(c)
    ensures DecimalValue([a, b, c]) == (DigitValue(a) * 10 + DigitValue(b)) * 10 + DigitValue(c)
  {
    assert [a, b, c][..2] == [a, b];
    DecimalTwoDigits(a, b);
  }

  /** The opcodes and item values of the sample registry read as numbers. */
  lemma SampleNumbers()
    ensures JsNumber("3") == Some(3) && JsNumber("50") == Some(50) && JsNumber("16") == Some(16)
  {
    NumberOfDigits(['3']);
    DecimalOneDigit('3');
    NumberOfDigits(['5', '0']);
    DecimalTwoDigits('5', '0');
    NumberOfDigits(['1', '6']);
    DecimalTwoDigits('1', '6');
  }

  /** The status opcode reads as 254, for both encode examples of `status?`. */
  lemma StatusCode()
    ensures JsNumber("254") == Some(254)
  {
    NumberOfDigits(['2', '5', '4']);
    DecimalThreeDigits('2', '5', '4');
  }

  /** The two names are not numbers: `Number` gives NaN. */
  lemma SampleNames()
    ensures JsNumber("Level").None? && JsNumber("2-1").None?
  {
    TrimmedLevel();
    TrimmedNumbers();
    assert !IsDigit("Level"[0]) && !IsDigit("2-1"[1]);
  }

  /** Names are looked up by their lower-case form. */
  lemma SampleLookups()
    ensures FindByName(Sample, "status") == Some(0)
    ensures FindByName(Sample, "audio") == Some(1)
  {
    assert NameMatches(Sample[0], "status");
    assert |Lower("status")| != |Lower("audio")|;
    assert NameMatches(Sample[1], "audio");
  }

  /** An item naming a single alias matches exactly the parameters equal to
      it up to case. */
  lemma SingleAlias(it: Item, p: string)
    requires ',' !in it.name && Trim(it.name) == it.name && p != ""
    ensures AliasMatches(it, p) <==> Upper(p) == Upper(it.name)
  {
    SplitPlain(it.name, ',');
    assert Aliases(it) == [Upper(it.name)];
  }

  /** The parameter picks the second of two single-alias items. */
  lemma SecondOfTwo(first: Item, second: Item, p: string)
    requires ',' !in first.name && Trim(first.name) == first.name
    requires ',' !in second.name && Trim(second.name) == second.name
    requires p != "" && p == second.name && Upper(p) != Upper(first.name)
    ensures !AliasMatches(first, p) && AliasMatches(second, p)
  {
    SingleAlias(first, p);
    SingleAlias(second, p);
  }

  /** "Level" names the second meter item and not the first, for AudioMeter. */
  lemma MeterAliases()
    ensures !AliasMatches(Item("Off", Some("0")), "Level") && AliasMatches(Item("Level", Some("16")), "Level")
  {
    MeterNames("Off", "Level");
    SecondOfTwo(Item("Off", Some("0")), Item("Level", Some("16")), "Level");
  }

  /** The facts about the two meter names the alias lookup needs. */
  lemma MeterNames(off: string, level: string)
    requires off == "Off" && level == "Level"
    ensures ',' !in off && Trim(off) == off && ',' !in level && Trim(level) == level
    ensures Upper(level) != Upper(off)
  {
    TrimPlain(off);
    TrimPlain(level);
    assert |Upper(level)| != |Upper(off)|;
  }

  /** "2-1" names the second output item and not the first, for AudioOutput. */
  lemma OutputAliases()
    ensures !AliasMatches(Item("1-2", Some("1")), "2-1") && AliasMatches(Item("2-1", Some("16")), "2-1")
  {
    OutputNames("1-2", "2-1");
    SecondOfTwo(Item("1-2", Some("1")), Item("2-1", Some("16")), "2-1");
  }

  /** The facts about the two output names the alias lookup needs. */
  lemma OutputNames(one: string, two: string)
    requires one == "1-2" && two == "2-1"
    ensures ',' !in one && Trim(one) == one && ',' !in two && Trim(two) == two
    ensures Upper(two) != Upper(one)
  {
    TrimPlain(one);
    TrimPlain(two);
    assert Upper(two)[0] != Upper(one)[0];
  }

  const AudioParams := ["50", "Level", "2-1"]

  /** The value defs of the audio entry, as the source's `parDefArr`. */
  lemma AudioDefs()
    ensures DefArr(AudioEntry.value) == [Some(AudioEntry.value.defs[0]), Some(AudioEntry.value.defs[1]), Some(AudioEntry.value.defs[2])]
  {
  }

  /** The first audio parameter passes through as 50, for AudioValues. */
  lemma AudioVolume()
    ensures ParamDefined(DefArr(AudioEntry.value), AudioParams, 0)
    ensures ParamValue(DefArr(AudioEntry.value), AudioParams, 0) == Some(50)
  {
    SampleNumbers();
    PickNumber(DefArr(AudioEntry.value), AudioParams, 0, 50);
  }

  /** A numeric parameter resolves to its own number, whatever the defs. */
  lemma PickNumber(defs: seq<Option<ValueDef>>, params: seq<string>, k: nat, n: nat)
    requires k < |params| && JsNumber(params[k]) == Some(n)
    ensures ParamDefined(defs, params, k) && ParamValue(defs, params, k) == Some(n)
  {
  }

  /** The second audio parameter resolves to 16, for AudioValues. */
  lemma AudioMeter()
    ensures ParamDefined(DefArr(AudioEntry.value), AudioParams, 1)
    ensures ParamValue(DefArr(AudioEntry.value), AudioParams, 1) == Some(16)
  {
    AudioDefs();
    SampleNumbers();
    SampleNames();
    MeterAliases();
    PickSecond(DefArr(AudioEntry.value), AudioParams, 1, AudioEntry.value.defs[1].item.items, 16);
  }

  /** The third audio parameter resolves to 16, for AudioValues. */
  lemma AudioOutput()
    ensures ParamDefined(DefArr(AudioEntry.value), AudioParams, 2)
    ensures ParamValue(DefArr(AudioEntry.value), AudioParams, 2) == Some(16)
  {
    AudioDefs();
    SampleNumbers();
    SampleNames();
    OutputAliases();
    PickSecond(DefArr(AudioEntry.value), AudioParams, 2, AudioEntry.value.defs[2].item.items, 16);
  }

  /** A parameter that is not a number and names the second of two items, and
      not the first, resolves to the second item's value. */
  lemma PickSecond(defs: seq<Option<ValueDef>>, params: seq<string>, k: nat, items: seq<Item>, n: nat)
    requires k < |params| && k < |defs| && defs[k].Some? && defs[k].value.item == ItemList(items)
    requires JsNumber(params[k]).None? && |items| == 2
    requires !AliasMatches(items[0], params[k]) && AliasMatches(items[1], params[k])
    requires AttrNumber(items[1].value) == Some(n)
    ensures ParamDefined(defs, params, k) && ParamValue(defs, params, k) == Some(n)
  {
    assert FirstAlias(ListItems(defs[k].value), params[k], 1);
  }

  /** The three parameters of the audio test and the numbers they resolve
      to. */
  lemma AudioValues(defs: seq<Option<ValueDef>>, params: seq<string>)
    requires defs == DefArr(AudioEntry.value) && params == AudioParams
    ensures |params| == 3 == |defs| && forall k :: 0 <= k < 3 ==> defs[k].Some?
    ensures ParamValue(defs, params, 0) == Some(50)
    ensures ParamValue(defs, params, 1) == Some(16)
    ensures ParamValue(defs, params, 2) == Some(16)
  {
    AudioVolume();
    AudioMeter();
    AudioOutput();
  }

  /** The audio write resolves to opcode 3 and the numbers 50, 16 and 16:
      the number passes through and each name resolves to its item's value. */
  lemma AudioPlan()
    ensures WriteDefined(Sample, "audio", AudioParams)
    ensures WritePlan(Sample, 1000, "audio", AudioParams) == Some(Plan(3, [50, 16, 16], Some(1000)))
  {
    AudioPlanFor(Sample, AudioParams);
  }

  /** The same with the registry and the parameters held in variables, which
      keeps the verifier from evaluating the plan by unfolding. */
  lemma AudioPlanFor(reg: Registry, params: seq<string>)
    requires reg == Sample && params == AudioParams
    ensures WriteDefined(reg, "audio", params)
    ensures WritePlan(reg, 1000, "audio", params) == Some(Plan(3, [50, 16, 16], Some(1000)))
  {
    SampleLookups();
    assert reg[1] == AudioEntry;
    AudioAttributes(reg[1]);
    AudioValues(DefArr(reg[1].value), params);
    ThreeParameterPlan(reg, 1000, "audio", params, 1, 3, 50, 16, 16);
  }

  /** The attributes of the audio entry a write consults first. */
  lemma AudioAttributes(c: Command)
    requires c == AudioEntry
    ensures 'w' in c.mode && AttrNumber(c.code) == Some(3) && c.wDuration == ""
  {
    SampleNumbers();
    assert c.mode[1] == 'w';
  }

  /** A registered, writable command whose three parameters all resolve
      plans those numbers. */
  lemma ThreeParameterPlan(reg: Registry, default: nat, name: string, params: seq<string>,
                           i: nat, code: nat, a: nat, b: nat, c: nat)
    requires FindByName(reg, name) == Some(i) && 'w' in reg[i].mode && AttrNumber(reg[i].code) == Some(code)
    requires reg[i].wDuration == ""
    requires var defs := DefArr(reg[i].value);
      && |params| == 3 == |defs| && (forall k :: 0 <= k < 3 ==> defs[k].Some?)
      && ParamValue(defs, params, 0) == Some(a)
      && ParamValue(defs, params, 1) == Some(b)
      && ParamValue(defs, params, 2) == Some(c)
    ensures WriteDefined(reg, name, params)
    ensures WritePlan(reg, default, name, params) == Some(Plan(code, [a, b, c], Some(default)))
  {
    var defs := DefArr(reg[i].value);
    ThreeResolved(defs, params, a, b, c);
    ResolvedPlan(reg, default, name, params, i, code, [a, b, c]);
  }

  /** Three resolved parameters at a symbolic index, for ThreeParameterPlan. */
  lemma ThreeResolved(defs: seq<Option<ValueDef>>, params: seq<string>, a: nat, b: nat, c: nat)
    requires |params| == 3 == |defs| && (forall k :: 0 <= k < 3 ==> defs[k].Some?)
    requires ParamValue(defs, params, 0) == Some(a)
    requires ParamValue(defs, params, 1) == Some(b)
    requires ParamValue(defs, params, 2) == Some(c)
    ensures forall k :: 0 <= k < |params| ==>
      ParamDefined(defs, params, k) && ParamValue(defs, params, k) == Some([a, b, c][k])
  {
    var nums := [a, b, c];
    forall k | 0 <= k < |params|
      ensures ParamDefined(defs, params, k) && ParamValue(defs, params, k) == Some(nums[k])
    {
      OneOfThree(defs, params, a, b, c, k);
    }
  }

  /** One parameter of three, at a symbolic index. */
  lemma OneOfThree(defs: seq<Option<ValueDef>>, params: seq<string>, a: nat, b: nat, c: nat, k: nat)
    requires k < |params| == 3 == |defs| && defs[k].Some?
    requires k == 0 ==> ParamValue(defs, params, k) == Some(a)
    requires k == 1 ==> ParamValue(defs, params, k) == Some(b)
    requires k == 2 ==> ParamValue(defs, params, k) == Some(c)
    ensures ParamDefined(defs, params, k) && ParamValue(defs, params, k) == Some([a, b, c][k])
  {
  }

  /** A registered, writable command whose parameters all resolve plans the
      numbers they resolve to. */
  lemma ResolvedPlan(reg: Registry, default: nat, name: string, params: seq<string>,
                     i: nat, code: nat, nums: seq<nat>)
    requires FindByName(reg, name) == Some(i) && 'w' in reg[i].mode && AttrNumber(reg[i].code) == Some(code)
    requires reg[i].wDuration == "" && |nums| == |params|
    requires forall k :: 0 <= k < |params| ==>
      ParamDefined(DefArr(reg[i].value), params, k) && ParamValue(DefArr(reg[i].value), params, k) == Some(nums[k])
    ensures WriteDefined(reg, name, params)
    ensures WritePlan(reg, default, name, params) == Some(Plan(code, nums, Some(default)))
  {
    var r := WritePlan(reg, default, name, params);
    assert r.Some?;
    assert r.value.params == nums;
  }

  /** `encode('status?')` with the sample registry: the read frame of the
      test, with the default read duration. */
  lemma EncodeStatus()
    ensures EncodeDefined(Sample, "status?")
    ensures EncodeCommand(DefaultName, Sample, DefaultOptions, "status?") ==
      Parsed(CommandObject(DefaultName, "status?", Some(Encoded(StatusFrame, Some(1000)))))
  {
    EncodeStatusFor(Sample, "status?");
  }

  /** EncodeStatus with the inputs held in variables, which keeps the
      verifier from evaluating the encoder by unfolding. */
  lemma EncodeStatusFor(reg: Registry, cmd: string)
    requires reg == Sample && cmd == "status?"
    ensures EncodeDefined(reg, cmd)
    ensures EncodeCommand(DefaultName, reg, DefaultOptions, cmd) ==
      Parsed(CommandObject(DefaultName, cmd, Some(Encoded(StatusFrame, Some(1000)))))
  {
    ScanStatus();
    SampleLookups();
    StatusCode();
    StatusFrameExample();
    assert !IsSpecial(cmd);
    assert reg[0] == StatusEntry;
    assert ReadPlan(reg, 1000, "status") == Some(Plan(254, [], Some(1000)));
  }

  /** `encode('audio 50,Level,2-1')` with the sample registry: the write
      frame of the test, with the default write duration. */
  lemma EncodeAudio()
    ensures EncodeDefined(Sample, "audio 50,Level,2-1")
    ensures EncodeCommand(DefaultName, Sample, DefaultOptions, "audio 50,Level,2-1") ==
      Parsed(CommandObject(DefaultName, "audio 50,Level,2-1", Some(Encoded(AudioFrame, Some(1000)))))
  {
    EncodeAudioFor(Sample, "audio 50,Level,2-1");
  }

  /** The Samsung read frame for the same entry, for the driver's default
      name and display id: `aa fe 00 00 fe`. */
  const SamsungStatusFrame: seq<byte> := [0xAA, 0xFE, 0x00, 0x00, 0xFE]

  /** The Samsung read frame of opcode 254 for display 0. */
  lemma SamsungStatusFrameExample()
    ensures Samsung.ReadFrame(254, Samsung.DefaultId) == SamsungStatusFrame
  {
    var tail: seq<byte> := [0xFE, 0x00, 0x00];
    assert tail[..2][..1] == [0xFE];
    SumSingle(0xFE);
    assert Sum(tail) == 0xFE;
    assert Samsung.ReadFrame(254, Samsung.DefaultId)[1..4] == tail;
  }

  /** `encode('status?')` for a Samsung driver with the default address:
      the same registry entry read from display 0. */
  lemma SamsungEncodeStatus()
    ensures Samsung.EncodeDefined(Sample, "status?")
    ensures Samsung.EncodeCommand(Samsung.DefaultName, Sample, DefaultOptions, Samsung.DefaultId, "status?") ==
      Parsed(CommandObject(Samsung.DefaultName, "status?", Some(Encoded(SamsungStatusFrame, Some(1000)))))
  {
    SamsungEncodeStatusFor(Sample, "status?");
  }

  /** SamsungEncodeStatus with the inputs held in variables. */
  lemma SamsungEncodeStatusFor(reg: Registry, cmd: string)
    requires reg == Sample && cmd == "status?"
    ensures Samsung.EncodeDefined(reg, cmd)
    ensures Samsung.EncodeCommand(Samsung.DefaultName, reg, DefaultOptions, Samsung.DefaultId, cmd) ==
      Parsed(CommandObject(Samsung.DefaultName, cmd, Some(Encoded(SamsungStatusFrame, Some(1000)))))
  {
    ScanStatus();
    SampleLookups();
    StatusCode();
    SamsungStatusFrameExample();
    assert !Samsung.IsSpecial(cmd);
    assert reg[0] == StatusEntry;
    assert ReadPlan(reg, 1000, "status") == Some(Plan(254, [], Some(1000)));
  }

  /** EncodeAudio with the inputs held in variables. */
  lemma EncodeAudioFor(reg: Registry, cmd: string)
    requires reg == Sample && cmd == "audio 50,Level,2-1"
    ensures EncodeDefined(reg, cmd)
    ensures EncodeCommand(DefaultName, reg, DefaultOptions, cmd) ==
      Parsed(CommandObject(DefaultName, cmd, Some(Encoded(AudioFrame, Some(1000)))))
  {
    ScanAudio();
    AudioParameters();
    AudioPlan();
    AudioFrameExample();
    assert !IsSpecial(cmd);
    assert MatchCommand(cmd) == Some(Match("audio", false, "50,Level,2-1"));
    assert Parameters("50,Level,2-1") == AudioParams;
  }
}
