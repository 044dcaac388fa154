// The config form: reading a draft into a payload and printing a config back
// into a draft (web/tstlan-web/lib/configs.ts).
module ConfigForm {
  import opened Wrappers
  import opened NetVars
  import opened Division

  // A JavaScript string: UTF-16 code units.
  type Unit = n: nat | n < 0x1_0000
  type Text = seq<Unit>

  const MINUS: Unit := 0x2D
  const ZERO: Unit := 0x30

  // ---------- trim ----------

  // White space and line terminators, as String.prototype.trim removes them.
  predicate IsSpace(u: Unit) {
    || 0x09 <= u <= 0x0D || u == 0x20 || u == 0xA0 || u == 0x1680 || 0x2000 <= u <= 0x200A
    || u == 0x2028 || u == 0x2029 || u == 0x202F || u == 0x205F || u == 0x3000 || u == 0xFEFF
  }

  function TrimStart(s: Text): Text {
    if s != [] && IsSpace(s[0]) then TrimStart(s[1..]) else s
  }

  function TrimEnd(s: Text): Text {
    if s != [] && IsSpace(s[|s| - 1]) then TrimEnd(s[..|s| - 1]) else s
  }

  function Trim(s: Text): Text {
    TrimEnd(TrimStart(s))
  }

  predicate Trimmed(s: Text) {
    s != [] ==> !IsSpace(s[0]) && !IsSpace(s[|s| - 1])
  }

  lemma {:induction false} TrimStartStops(s: Text)
    ensures TrimStart(s) != [] ==> !IsSpace(TrimStart(s)[0])
  {
    if s != [] && IsSpace(s[0]) {
      TrimStartStops(s[1..]);
    }
  }

  lemma {:induction false} TrimEndStops(s: Text)
    ensures TrimEnd(s) != [] ==> !IsSpace(TrimEnd(s)[|TrimEnd(s)| - 1]) && TrimEnd(s)[0] == s[0]
  {
    if s != [] && IsSpace(s[|s| - 1]) {
      TrimEndStops(s[..|s| - 1]);
    }
  }

  lemma TrimTrims(s: Text)
    ensures Trimmed(Trim(s))
  {
    TrimStartStops(s);
    TrimEndStops(TrimStart(s));
  }

  // Trimming takes away the spaces at both ends and nothing else.
  lemma TrimIsInner(s: Text) returns (i: nat, j: nat)
    ensures i <= j <= |s| && Trim(s) == s[i..j] && Trimmed(Trim(s))
    ensures forall k | 0 <= k < i || j <= k < |s| :: IsSpace(s[k])
  {
    TrimTrims(s);
    i := TrimStartCuts(s);
    var n := TrimEndCuts(s[i..]);
    j := i + n;
    assert s[i..][..n] == s[i..j];
    forall k | j <= k < |s|
      ensures IsSpace(s[k])
    {
      assert s[k] == s[i..][k - i];
    }
  }

  lemma {:induction false} TrimStartCuts(s: Text) returns (i: nat)
    ensures i <= |s| && TrimStart(s) == s[i..]
    ensures forall k | 0 <= k < i :: IsSpace(s[k])
  {
    i := 0;
    if s != [] && IsSpace(s[0]) {
      i := TrimStartCuts(s[1..]);
      forall k | 0 < k < i + 1
        ensures IsSpace(s[k])
      {
        assert s[k] == s[1..][k - 1];
      }
      i := i + 1;
    }
  }

  lemma {:induction false} TrimEndCuts(s: Text) returns (n: nat)
    ensures n <= |s| && TrimEnd(s) == s[..n]
    ensures forall k | n <= k < |s| :: IsSpace(s[k])
  {
    n := |s|;
    if s != [] && IsSpace(s[|s| - 1]) {
      n := TrimEndCuts(s[..|s| - 1]);
    }
  }

  lemma TrimOfTrimmed(s: Text)
    requires Trimmed(s)
    ensures Trim(s) == s
  {
  }

  lemma TrimTwice(s: Text)
    ensures Trim(Trim(s)) == Trim(s)
  {
    TrimTrims(s);
    TrimOfTrimmed(Trim(s));
  }

  // ---------- decimal numbers ----------

  predicate IsDigit(u: Unit) {
    ZERO <= u <= ZERO + 9
  }

  predicate AllDigits(s: Text) {
    forall i | 0 <= i < |s| :: IsDigit(s[i])
  }

  // One or more digits, after a minus sign or none.
  predicate IsIntegerText(s: Text) {
    if s != [] && s[0] == MINUS then |s| > 1 && AllDigits(s[1..]) else s != [] && AllDigits(s)
  }

  function DigitsValue(s: Text): nat
    requires AllDigits(s)
  {
    if s == [] then 0 else 10 * DigitsValue(s[..|s| - 1]) + (s[|s| - 1] - ZERO)
  }

  // The number a JavaScript string of this form stands for.
  function NumberValue(s: Text): int
    requires IsIntegerText(s)
  {
    if s[0] == MINUS then 0 - DigitsValue(s[1..]) else DigitsValue(s)
  }

  function PrintDigits(n: nat): Text {
    if n < 10 then [ZERO + n] else PrintDigits(n / 10) + [ZERO + n % 10]
  }

  // In decimal, without leading zeros.
  function Print(n: int): Text {
    if n < 0 then [MINUS] + PrintDigits(-n) else PrintDigits(n)
  }

  lemma {:induction false} DigitsRoundTrip(n: nat)
    ensures PrintDigits(n) != [] && AllDigits(PrintDigits(n)) && DigitsValue(PrintDigits(n)) == n
  {
    if n >= 10 {
      DigitsRoundTrip(n / 10);
      var s := PrintDigits(n);
      assert s[..|s| - 1] == PrintDigits(n / 10);
    } else {
      assert [ZERO + n][..0] == [];
    }
  }

  // The digits are those of the decimal system: digit k from the right counts
  // 10^k, so that the text is that of the number.
  lemma {:induction false} DigitPlace(s: Text, k: nat)
    requires AllDigits(s) && k < |s|
    ensures DigitsValue(s) / Power(10, k) % 10 == s[|s| - 1 - k] - ZERO
    ensures DigitsValue(s) < Power(10, |s|)
  {
    var n := |s| - 1;
    var rest := s[..n];
    assert DigitsValue(s) / 10 == DigitsValue(rest) && DigitsValue(s) % 10 == s[n] - ZERO;
    if n == 0 {
      assert rest == [];
    } else {
      DigitPlace(rest, if k > 0 then k - 1 else 0);
    }
    if k > 0 {
      DivideTwice(DigitsValue(s), 10, Power(10, k - 1));
    }
  }

  // A number is printed without leading zeros.
  lemma {:induction false} NoLeadingZero(n: nat)
    ensures n > 0 ==> PrintDigits(n)[0] != ZERO
    ensures n == 0 ==> PrintDigits(n) == [ZERO]
  {
    if n >= 10 {
      DigitsRoundTrip(n / 10);
      NoLeadingZero(n / 10);
    }
  }

  function ParseIntStrict(raw: Text): Option<int> {
    var trimmed := Trim(raw);
    if IsIntegerText(trimmed) then Some(NumberValue(trimmed)) else None
  }

  // Read are just digits after a minus or none, between spaces.
  lemma ReadExactly(raw: Text, digits: Text)
    ensures ParseIntStrict(raw).Some? ==>
              Trim(raw) != [] && AllDigits(if Trim(raw)[0] == MINUS then Trim(raw)[1..] else Trim(raw)) &&
              Trim(raw) != [MINUS]
    ensures digits != [] && AllDigits(digits) && Trim(raw) == digits ==>
              ParseIntStrict(raw) == Some(DigitsValue(digits))
    ensures digits != [] && AllDigits(digits) && Trim(raw) == [MINUS] + digits ==>
              ParseIntStrict(raw) == Some(0 - DigitsValue(digits))
  {
    assert [MINUS] + digits != [] && ([MINUS] + digits)[1..] == digits;
    if digits != [] && AllDigits(digits) {
      assert IsDigit(digits[0]);
    }
  }

  // An empty counter counts as 0; a negative one is not accepted.
  function ParseCount(raw: Text): (r: Option<int>)
    ensures r.Some? ==> r.value >= 0
    ensures Trim(raw) == [] ==> r == Some(0)
    ensures Trim(raw) != [] && ParseIntStrict(raw).Some? && ParseIntStrict(raw).value >= 0 ==>
              r == ParseIntStrict(raw)
    ensures Trim(raw) != [] && ParseIntStrict(raw).None? ==> r == None
  {
    if Trim(raw) == [] then Some(0)
    else
      var value := ParseIntStrict(raw);
      if value.None? || value.value < 0 then None else value
  }

  lemma PrintedIsTrimmed(n: int)
    ensures Print(n) != [] && Trimmed(Print(n)) && IsIntegerText(Print(n)) && NumberValue(Print(n)) == n
  {
    var digits := PrintDigits(if n < 0 then -n else n);
    DigitsRoundTrip(if n < 0 then -n else n);
    assert IsDigit(digits[0]) && IsDigit(digits[|digits| - 1]);
    if n < 0 {
      assert ([MINUS] + digits)[1..] == digits;
    }
  }

  // Every integer, printed, parses back to itself.
  lemma PrintParse(n: int)
    ensures ParseIntStrict(Print(n)) == Some(n)
    ensures n >= 0 ==> ParseCount(Print(n)) == Some(n)
  {
    PrintedIsTrimmed(n);
    TrimOfTrimmed(Print(n));
  }

  // ---------- drafts and payloads ----------

  datatype Transport = Ethernet | Gpib | Com | ModbusTcp | ModbusUdp

  datatype Visibility = Private | Shared | Public

  predicate IsModbus(transport: Transport) {
    transport == ModbusTcp || transport == ModbusUdp
  }

  predicate NeedsNetwork(transport: Transport) {
    transport == Ethernet || IsModbus(transport)
  }

  datatype Variable = Variable(name: Text, ctype: CType, graph: bool, category: Text)

  datatype Draft = Draft(
    name: Text, deviceType: Text, visibility: Visibility, transport: Transport,
    ip: Text, port: Text, gpibAddr: Text, comName: Text, ipRequest: Text, pollPeriodMs: Text,
    discreteInputsBytes: Text, coilsBytes: Text, holdingRegisters: Text, inputRegisters: Text,
    params: map<Text, Text>, variables: seq<Variable>)

  datatype ModbusMap = ModbusMap(discreteInputsBytes: int, coilsBytes: int, holdingRegisters: int, inputRegisters: int)

  datatype Connection = Connection(
    transport: Transport, ip: Option<Text>, port: Option<int>, gpibAddr: Option<int>, comName: Option<Text>,
    ipRequest: Option<Text>, pollPeriodMs: int, modbus: Option<ModbusMap>, params: map<Text, Text>)

  datatype Payload = Payload(connection: Connection, variables: seq<Variable>)

  datatype Detail = Detail(name: Text, deviceType: Text, visibility: Visibility, payload: Payload)

  function NonEmpty(s: Text): Option<Text> {
    if Trim(s) != [] then Some(Trim(s)) else None
  }

  function OrElse(n: Option<int>, default: int): int {
    if n.Some? then n.value else default
  }

  function OrEmpty(s: Option<Text>): Text {
    if s.Some? then s.value else []
  }

  function TrimmedVariable(v: Variable): Variable {
    v.(name := Trim(v.name), category := Trim(v.category))
  }

  function TrimmedVariables(variables: seq<Variable>): (r: seq<Variable>)
    ensures |r| == |variables|
    ensures forall i | 0 <= i < |r| :: r[i] == TrimmedVariable(variables[i])
  {
    seq(|variables|, i requires 0 <= i < |variables| => TrimmedVariable(variables[i]))
  }

  function DraftToPayload(d: Draft): Payload {
    var network := NeedsNetwork(d.transport);
    Payload(
      Connection(
        d.transport,
        if network then NonEmpty(d.ip) else None,
        if network then ParseIntStrict(d.port) else None,
        if d.transport == Gpib then ParseIntStrict(d.gpibAddr) else None,
        if d.transport == Com then NonEmpty(d.comName) else None,
        NonEmpty(d.ipRequest),
        OrElse(ParseIntStrict(d.pollPeriodMs), 0),
        if IsModbus(d.transport) then
          Some(ModbusMap(OrElse(ParseCount(d.discreteInputsBytes), 0), OrElse(ParseCount(d.coilsBytes), 0),
                         OrElse(ParseCount(d.holdingRegisters), 0), OrElse(ParseCount(d.inputRegisters), 0)))
        else None,
        d.params),
      TrimmedVariables(d.variables))
  }

  function PrintOption(n: Option<int>): Text {
    if n.Some? then Print(n.value) else []
  }

  function ConfigToDraft(config: Detail): Draft {
    var c := config.payload.connection;
    var modbus := if c.modbus.Some? then c.modbus.value else ModbusMap(0, 0, 0, 0);
    Draft(config.name, config.deviceType, config.visibility, c.transport,
          OrEmpty(c.ip), PrintOption(c.port), PrintOption(c.gpibAddr), OrEmpty(c.comName), OrEmpty(c.ipRequest),
          Print(c.pollPeriodMs),
          Print(modbus.discreteInputsBytes), Print(modbus.coilsBytes),
          Print(modbus.holdingRegisters), Print(modbus.inputRegisters),
          c.params, config.payload.variables)
  }

  // The config a draft describes, as creating one sends it.
  function ConfigOf(d: Draft): Detail {
    Detail(d.name, d.deviceType, d.visibility, DraftToPayload(d))
  }

  // ---------- validation ----------

  const PORT_MIN := 1
  const PORT_MAX := 65535
  const GPIB_MIN := 0
  const GPIB_MAX := 30
  const NAME_MAX := 128
  const DEVICE_TYPE_MAX := 64

  datatype TextError = Missing | TooLong

  datatype VariableError = NameMissing | NameRepeated

  datatype ModbusField = DiscreteInputs | Coils | Holding | Input

  datatype Errors = Errors(
    name: Option<TextError>, deviceType: Option<TextError>, ip: bool, port: bool, gpibAddr: bool, comName: bool,
    pollPeriodMs: bool, modbus: set<ModbusField>, variables: map<nat, VariableError>)

  predicate HasErrors(e: Errors) {
    e != Errors(None, None, false, false, false, false, false, {}, map[])
  }

  function TextProblem(s: Text, limit: nat): Option<TextError> {
    if Trim(s) == [] then Some(Missing) else if |Trim(s)| > limit then Some(TooLong) else None
  }

  predicate OutOf(n: Option<int>, low: int, high: int) {
    n.None? || n.value < low || n.value > high
  }

  function CountField(d: Draft, field: ModbusField): Text {
    match field
    case DiscreteInputs => d.discreteInputsBytes
    case Coils => d.coilsBytes
    case Holding => d.holdingRegisters
    case Input => d.inputRegisters
  }

  const MODBUS_FIELDS: seq<ModbusField> := [DiscreteInputs, Coils, Holding, Input]

  ghost predicate RepeatsEarlier(variables: seq<Variable>, i: nat)
    requires i < |variables|
  {
    exists j :: 0 <= j < i && Trim(variables[j].name) == Trim(variables[i].name)
  }

  // A name is wrong if it is empty, or if an earlier variable has it.
  ghost function VariableErrors(variables: seq<Variable>, n: nat): map<nat, VariableError>
    requires n <= |variables|
  {
    map i: nat | i < n && (Trim(variables[i].name) == [] || RepeatsEarlier(variables, i)) ::
      if Trim(variables[i].name) == [] then NameMissing else NameRepeated
  }

  ghost function FormErrors(d: Draft): Errors {
    var network := NeedsNetwork(d.transport);
    Errors(
      TextProblem(d.name, NAME_MAX),
      TextProblem(d.deviceType, DEVICE_TYPE_MAX),
      network && Trim(d.ip) == [],
      network && OutOf(ParseIntStrict(d.port), PORT_MIN, PORT_MAX),
      d.transport == Gpib && OutOf(ParseIntStrict(d.gpibAddr), GPIB_MIN, GPIB_MAX),
      d.transport == Com && Trim(d.comName) == [],
      ParseIntStrict(d.pollPeriodMs).None? || ParseIntStrict(d.pollPeriodMs).value <= 0,
      (set field: ModbusField | IsModbus(d.transport) && ParseCount(CountField(d, field)).None?),
      VariableErrors(d.variables, |d.variables|))
  }

  method ValidateVariables(variables: seq<Variable>) returns (errors: map<nat, VariableError>)
    ensures errors == VariableErrors(variables, |variables|)
  {
    errors := map[];
    var seen: set<Text> := {};
    for i := 0 to |variables|
      invariant forall name :: name in seen <==> exists j :: 0 <= j < i && Trim(variables[j].name) == name
      invariant errors == VariableErrors(variables, i)
    {
      assert Trim(variables[i].name) in seen <==> RepeatsEarlier(variables, i);
      NextVariableError(variables, i);
      var name := Trim(variables[i].name);
      if name == [] {
        errors := errors[i := NameMissing];
      } else if name in seen {
        errors := errors[i := NameRepeated];
      }
      seen := seen + {name};
    }
  }

  lemma NextVariableError(variables: seq<Variable>, i: nat)
    requires i < |variables|
    ensures VariableErrors(variables, i + 1) ==
            if Trim(variables[i].name) == [] then VariableErrors(variables, i)[i := NameMissing]
            else if RepeatsEarlier(variables, i) then VariableErrors(variables, i)[i := NameRepeated]
            else VariableErrors(variables, i)
  {
  }

  method ValidateConfigForm(d: Draft) returns (errors: Errors)
    ensures errors == FormErrors(d)
  {
    hide Trim, ParseIntStrict, ParseCount, TextProblem, OutOf, VariableErrors;
    var name, deviceType := TextProblem(d.name, NAME_MAX), TextProblem(d.deviceType, DEVICE_TYPE_MAX);
    var ip, port, gpibAddr, comName, pollPeriodMs := false, false, false, false, false;
    if NeedsNetwork(d.transport) {
      ip := Trim(d.ip) == [];
      var value := ParseIntStrict(d.port);
      port := OutOf(value, PORT_MIN, PORT_MAX);
    }
    if d.transport == Gpib {
      var addr := ParseIntStrict(d.gpibAddr);
      gpibAddr := OutOf(addr, GPIB_MIN, GPIB_MAX);
    }
    if d.transport == Com && Trim(d.comName) == [] {
      comName := true;
    }
    var period := ParseIntStrict(d.pollPeriodMs);
    pollPeriodMs := period.None? || period.value <= 0;
    var modbus: set<ModbusField> := {};
    if IsModbus(d.transport) {
      for k := 0 to |MODBUS_FIELDS|
        invariant forall field :: field in modbus <==>
                                  field in MODBUS_FIELDS[..k] && ParseCount(CountField(d, field)).None?
      {
        if ParseCount(CountField(d, MODBUS_FIELDS[k])).None? {
          modbus := modbus + {MODBUS_FIELDS[k]};
        }
        assert MODBUS_FIELDS[..k + 1] == MODBUS_FIELDS[..k] + [MODBUS_FIELDS[k]];
      }
      AllFields();
    }
    var variables := ValidateVariables(d.variables);
    errors := Errors(name, deviceType, ip, port, gpibAddr, comName, pollPeriodMs, modbus, variables);
  }

  lemma AllFields()
    ensures forall field: ModbusField :: field in MODBUS_FIELDS[..|MODBUS_FIELDS|]
  {
    var fields := MODBUS_FIELDS[..|MODBUS_FIELDS|];
    assert fields[0] == DiscreteInputs && fields[1] == Coils && fields[2] == Holding && fields[3] == Input;
    forall field: ModbusField
      ensures field in fields
    {
      match field
      case DiscreteInputs => assert fields[0] == field;
      case Coils => assert fields[1] == field;
      case Holding => assert fields[2] == field;
      case Input => assert fields[3] == field;
    }
  }

  // The complaints one by one: what each field needs for there to be none.
  lemma ComplaintsExactly(d: Draft)
    ensures var e := FormErrors(d);
            var network := d.transport == Ethernet || d.transport == ModbusTcp || d.transport == ModbusUdp;
            && (e.name == Some(Missing) <==> |Trim(d.name)| == 0) && (e.name == Some(TooLong) <==> |Trim(d.name)| > 128)
            && (e.deviceType == Some(Missing) <==> |Trim(d.deviceType)| == 0)
            && (e.deviceType == Some(TooLong) <==> |Trim(d.deviceType)| > 64)
            && (e.ip <==> network && |Trim(d.ip)| == 0)
            && (e.port <==> network && !IsBetween(d.port, 1, 65535))
            && (e.gpibAddr <==> d.transport == Gpib && !IsBetween(d.gpibAddr, 0, 30))
            && (e.comName <==> d.transport == Com && |Trim(d.comName)| == 0)
            && (!e.pollPeriodMs <==> exists n: int :: n > 0 && ParseIntStrict(d.pollPeriodMs) == Some(n))
  {
    hide Trim, ParseIntStrict, VariableErrors, ParseCount;
    if ParseIntStrict(d.pollPeriodMs).Some? {
      var n := ParseIntStrict(d.pollPeriodMs).value;
      assert ParseIntStrict(d.pollPeriodMs) == Some(n);
    }
  }

  // The text is an integer from `low` to `high`.
  predicate IsBetween(raw: Text, low: int, high: int) {
    ParseIntStrict(raw).Some? && low <= ParseIntStrict(raw).value <= high
  }

  // Each Modbus counter is complained of on its own, and only if it counts.
  lemma CounterComplaintsExactly(d: Draft)
    ensures var e := FormErrors(d);
            var modbus := d.transport == ModbusTcp || d.transport == ModbusUdp;
            && (DiscreteInputs in e.modbus <==> modbus && ParseCount(d.discreteInputsBytes).None?)
            && (Coils in e.modbus <==> modbus && ParseCount(d.coilsBytes).None?)
            && (Holding in e.modbus <==> modbus && ParseCount(d.holdingRegisters).None?)
            && (Input in e.modbus <==> modbus && ParseCount(d.inputRegisters).None?)
  {
    hide Trim, ParseIntStrict, VariableErrors, ParseCount;
  }

  // A variable is complained of if it has no name or that of an earlier one.
  lemma VariableComplaintsExactly(d: Draft, i: nat)
    requires i < |d.variables|
    ensures var e, name := FormErrors(d).variables, Trim(d.variables[i].name);
            && (i in e && e[i] == NameMissing <==> name == [])
            && (i in e && e[i] == NameRepeated <==>
                name != [] && exists j :: 0 <= j < i && Trim(d.variables[j].name) == name)
  {
    hide Trim, ParseIntStrict, ParseCount;
  }

  // ---------- submitting ----------

  // What the form hands on when its button is pressed: nothing while it complains.
  ghost function Submission(d: Draft): Option<Detail> {
    if HasErrors(FormErrors(d)) then None else Some(ConfigOf(d))
  }

  method Submit(d: Draft) returns (r: Option<Detail>)
    ensures r == Submission(d)
  {
    var errors := ValidateConfigForm(d);
    if HasErrors(errors) {
      return None;
    }
    return Some(ConfigOf(d));
  }

  // ---------- the trip there and back ----------

  // The integers of a draft are ones that JavaScript numbers hold exactly;
  // beyond them `Number` rounds, which the integers of this model do not.
  predicate Safe(n: Option<int>) {
    n.Some? ==> -0x1F_FFFF_FFFF_FFFF <= n.value <= 0x1F_FFFF_FFFF_FFFF
  }

  predicate SafeIntegers(d: Draft) {
    && Safe(ParseIntStrict(d.port)) && Safe(ParseIntStrict(d.gpibAddr)) && Safe(ParseIntStrict(d.pollPeriodMs))
    && Safe(ParseCount(d.discreteInputsBytes)) && Safe(ParseCount(d.coilsBytes))
    && Safe(ParseCount(d.holdingRegisters)) && Safe(ParseCount(d.inputRegisters))
  }

  lemma CountTrip(raw: Text)
    ensures ParseCount(Print(OrElse(ParseCount(raw), 0))) == Some(OrElse(ParseCount(raw), 0))
  {
    PrintParse(OrElse(ParseCount(raw), 0));
  }

  lemma TextTrip(s: Text)
    ensures NonEmpty(OrEmpty(NonEmpty(s))) == NonEmpty(s)
    ensures Trim(OrEmpty(NonEmpty(s))) == Trim(s)
  {
    TrimTwice(s);
  }

  lemma IntTrip(n: Option<int>)
    ensures ParseIntStrict(PrintOption(n)) == n
  {
    if n.Some? {
      PrintParse(n.value);
    }
  }

  // The config of a draft, opened again, gives a draft of the very same payload,
  // under the same name, type and visibility.
  lemma PayloadSurvives(d: Draft)
    requires SafeIntegers(d)
    ensures var back := ConfigToDraft(ConfigOf(d));
            && DraftToPayload(back) == DraftToPayload(d)
            && back.name == d.name && back.deviceType == d.deviceType && back.visibility == d.visibility
  {
    hide Print, PrintOption, ParseIntStrict, ParseCount, NonEmpty, Trim;
    var payload := DraftToPayload(d);
    TextTrip(d.ip);
    TextTrip(d.comName);
    TextTrip(d.ipRequest);
    IntTrip(ParseIntStrict(d.port));
    IntTrip(ParseIntStrict(d.gpibAddr));
    PrintParse(payload.connection.pollPeriodMs);
    CountTrip(d.discreteInputsBytes);
    CountTrip(d.coilsBytes);
    CountTrip(d.holdingRegisters);
    CountTrip(d.inputRegisters);
    EmptyTrip();
    VariablesTrip(d.variables);
  }

  lemma EmptyTrip()
    ensures NonEmpty(OrEmpty(None)) == None && ParseIntStrict(PrintOption(None)) == None
    ensures Trim([]) == []
  {
  }

  lemma VariablesTrip(variables: seq<Variable>)
    ensures TrimmedVariables(TrimmedVariables(variables)) == TrimmedVariables(variables)
  {
    forall i | 0 <= i < |variables|
      ensures TrimmedVariable(TrimmedVariable(variables[i])) == TrimmedVariable(variables[i])
    {
      TrimTwice(variables[i].name);
      TrimTwice(variables[i].category);
    }
  }

  lemma VariableErrorsTrip(variables: seq<Variable>)
    ensures VariableErrors(TrimmedVariables(variables), |variables|) == VariableErrors(variables, |variables|)
  {
    var back := TrimmedVariables(variables);
    forall i | 0 <= i < |variables|
      ensures Trim(back[i].name) == Trim(variables[i].name)
    {
      TrimTwice(variables[i].name);
    }
    forall i: nat | i < |variables|
      ensures RepeatsEarlier(back, i) <==> RepeatsEarlier(variables, i)
    {
      if RepeatsEarlier(variables, i) {
        var j :| 0 <= j < i && Trim(variables[j].name) == Trim(variables[i].name);
        assert Trim(back[j].name) == Trim(back[i].name);
      }
    }
  }

  // Of any draft, submitted or not: printing its config keeps every complaint of
  // the form except those about the Modbus counters, which come back readable.
  lemma ErrorsSurvive(d: Draft)
    requires SafeIntegers(d)
    ensures FormErrors(ConfigToDraft(ConfigOf(d))) == FormErrors(d).(modbus := {})
  {
    hide Print, PrintOption, ParseIntStrict, ParseCount, NonEmpty, Trim;
    var payload := DraftToPayload(d);
    var back := ConfigToDraft(ConfigOf(d));
    TextTrip(d.ip);
    TextTrip(d.comName);
    IntTrip(ParseIntStrict(d.port));
    IntTrip(ParseIntStrict(d.gpibAddr));
    PrintParse(payload.connection.pollPeriodMs);
    VariableErrorsTrip(d.variables);
    if IsModbus(d.transport) {
      CountTrip(d.discreteInputsBytes);
      CountTrip(d.coilsBytes);
      CountTrip(d.holdingRegisters);
      CountTrip(d.inputRegisters);
    }
    assert forall field :: IsModbus(d.transport) ==> ParseCount(CountField(back, field)).Some?;
    assert FormErrors(back).modbus == {};
  }

  // For one: a Modbus draft whose coil count is the letter x. Its config would hold
  // 0 in that place, but the form does not submit it.
  lemma CounterComplaintIsLost(d: Draft)
    requires SafeIntegers(d) && IsModbus(d.transport) && d.coilsBytes == [0x78]
    ensures Coils in FormErrors(d).modbus && Submission(d) == None
    ensures Coils !in FormErrors(ConfigToDraft(ConfigOf(d))).modbus
    ensures DraftToPayload(d).connection.modbus.value.coilsBytes == 0
  {
    assert Trimmed(d.coilsBytes);
    TrimOfTrimmed(d.coilsBytes);
    assert !IsDigit(d.coilsBytes[0]);
    ErrorsSurvive(d);
  }

  // Field by field: what the form shows of the config again is what was typed,
  // trimmed, and as far as the transport has use for it.
  lemma ReopenedIsTyped(d: Draft)
    ensures var back := ConfigToDraft(ConfigOf(d));
            && back.name == d.name && back.deviceType == d.deviceType && back.visibility == d.visibility
            && back.transport == d.transport && back.params == d.params
            && back.ipRequest == Trim(d.ipRequest)
            && (ParseIntStrict(d.pollPeriodMs).Some? ==>
                  ParseIntStrict(back.pollPeriodMs) == ParseIntStrict(d.pollPeriodMs))
            && (match d.transport
                case Gpib =>
                  back.ip == [] && back.port == [] && back.comName == [] &&
                  ParseIntStrict(back.gpibAddr) == ParseIntStrict(d.gpibAddr)
                case Com => back.ip == [] && back.port == [] && back.gpibAddr == [] && back.comName == Trim(d.comName)
                case _ =>
                  back.gpibAddr == [] && back.comName == [] && back.ip == Trim(d.ip) &&
                  ParseIntStrict(back.port) == ParseIntStrict(d.port))
            && |back.variables| == |d.variables|
            && forall i | 0 <= i < |d.variables| ::
                 && back.variables[i].name == Trim(d.variables[i].name)
                 && back.variables[i].category == Trim(d.variables[i].category)
                 && back.variables[i].ctype == d.variables[i].ctype && back.variables[i].graph == d.variables[i].graph
  {
    hide Print, PrintOption, ParseIntStrict, ParseCount, Trim;
    NoneIsEmpty();
    IntTrip(ParseIntStrict(d.port));
    IntTrip(ParseIntStrict(d.gpibAddr));
    if ParseIntStrict(d.pollPeriodMs).Some? {
      PrintParse(ParseIntStrict(d.pollPeriodMs).value);
    }
  }

  lemma NoneIsEmpty()
    ensures PrintOption(None) == []
  {
  }

  // ... and its Modbus counters, each in its own place.
  lemma CountersReopen(d: Draft)
    requires d.transport == ModbusTcp || d.transport == ModbusUdp
    ensures var back := ConfigToDraft(ConfigOf(d));
            && (ParseCount(d.discreteInputsBytes).Some? ==>
                  ParseCount(back.discreteInputsBytes) == ParseCount(d.discreteInputsBytes))
            && (ParseCount(d.coilsBytes).Some? ==> ParseCount(back.coilsBytes) == ParseCount(d.coilsBytes))
            && (ParseCount(d.holdingRegisters).Some? ==>
                  ParseCount(back.holdingRegisters) == ParseCount(d.holdingRegisters))
            && (ParseCount(d.inputRegisters).Some? ==> ParseCount(back.inputRegisters) == ParseCount(d.inputRegisters))
  {
    hide Print, PrintOption, ParseIntStrict, ParseCount, Trim, NonEmpty;
    CountTrip(d.discreteInputsBytes);
    CountTrip(d.coilsBytes);
    CountTrip(d.holdingRegisters);
    CountTrip(d.inputRegisters);
  }

  // So a draft comes back valid exactly if nothing but Modbus counters was wrong
  // with it, and in particular whenever it was valid.
  lemma ValidSurvives(d: Draft)
    requires SafeIntegers(d)
    ensures !HasErrors(FormErrors(ConfigToDraft(ConfigOf(d)))) <==> !HasErrors(FormErrors(d).(modbus := {}))
    ensures !HasErrors(FormErrors(d)) ==> !HasErrors(FormErrors(ConfigToDraft(ConfigOf(d))))
  {
    ErrorsSurvive(d);
  }

  // What was submitted opens again without a complaint, and submitted unchanged it
  // is the same config once more.
  lemma SubmittedReopensClean(d: Draft)
    requires SafeIntegers(d) && Submission(d).Some?
    ensures FormErrors(ConfigToDraft(Submission(d).value)) == FormErrors(d)
    ensures Submission(ConfigToDraft(Submission(d).value)) == Submission(d)
  {
    hide DraftToPayload, ConfigToDraft, TextProblem, ParseIntStrict, ParseCount, Trim, VariableErrors;
    assert FormErrors(d).modbus == {};
    ErrorsSurvive(d);
    PayloadSurvives(d);
  }

  // ---------- what the form lets through ----------

  // A payload a device can be set up from: what its transport needs is there and
  // in range, it is polled, and its variables have names of their own.
  predicate Usable(p: Payload) {
    var c := p.connection;
    && (match c.transport
        case Gpib => c.gpibAddr.Some? && 0 <= c.gpibAddr.value <= 30
        case Com => c.comName.Some?
        case _ => c.ip.Some? && c.port.Some? && 1 <= c.port.value <= 65535)
    && c.pollPeriodMs > 0
    && (forall i | 0 <= i < |p.variables| :: p.variables[i].name != [])
    && (forall i, j | 0 <= i < j < |p.variables| :: p.variables[i].name != p.variables[j].name)
  }

  lemma NamesComplainedOf(variables: seq<Variable>)
    ensures VariableErrors(variables, |variables|) == map[] <==>
            && (forall i | 0 <= i < |variables| :: TrimmedVariables(variables)[i].name != [])
            && (forall i, j | 0 <= i < j < |variables| ::
                  TrimmedVariables(variables)[i].name != TrimmedVariables(variables)[j].name)
  {
    var errors := VariableErrors(variables, |variables|);
    if errors == map[] {
      forall i: nat | i < |variables|
        ensures Trim(variables[i].name) != [] && !RepeatsEarlier(variables, i)
      {
        assert i !in errors;
      }
    } else {
      var i: nat :| i in errors;
      if Trim(variables[i].name) == [] {
        assert TrimmedVariables(variables)[i].name == [];
      } else {
        assert RepeatsEarlier(variables, i);
        var j :| 0 <= j < i && Trim(variables[j].name) == Trim(variables[i].name);
        assert TrimmedVariables(variables)[j].name == TrimmedVariables(variables)[i].name;
      }
    }
  }

  // Apart from the config's own name and type, and from Modbus counters, the form
  // complains exactly about the drafts whose payload would not be usable.
  lemma ComplaintsAreDefects(d: Draft)
    ensures !HasErrors(FormErrors(d).(name := None, deviceType := None, modbus := {})) <==> Usable(DraftToPayload(d))
  {
    hide ParseIntStrict, ParseCount, Trim, VariableErrors;
    NamesComplainedOf(d.variables);
  }

  // The form submits exactly the drafts that have a name and a type within their
  // limits, a usable payload and readable Modbus counters.
  lemma SubmittedIsUsable(d: Draft)
    ensures Submission(d).Some? <==>
            && 0 < |Trim(d.name)| <= 128 && 0 < |Trim(d.deviceType)| <= 64
            && Usable(DraftToPayload(d))
            && (d.transport == ModbusTcp || d.transport == ModbusUdp ==>
                  && ParseCount(d.discreteInputsBytes).Some? && ParseCount(d.coilsBytes).Some?
                  && ParseCount(d.holdingRegisters).Some? && ParseCount(d.inputRegisters).Some?)
  {
    hide ParseIntStrict, ParseCount, Trim, VariableErrors, Usable;
    ComplaintsAreDefects(d);
    var e := FormErrors(d);
    CounterComplaintsExactly(d);
    if e.modbus != {} {
      var field :| field in e.modbus;
    }
    assert HasErrors(e) <==>
           HasErrors(e.(name := None, deviceType := None, modbus := {})) ||
           e.name.Some? || e.deviceType.Some? || e.modbus != {};
  }

  // What is submitted is what was typed: texts trimmed, numbers read, and of the
  // connection only what the transport needs.
  lemma SubmittedIsTyped(d: Draft)
    requires Submission(d).Some?
    ensures var config := Submission(d).value;
            var c := config.payload.connection;
            && config.name == d.name && config.deviceType == d.deviceType && config.visibility == d.visibility
            && c.transport == d.transport && c.params == d.params
            && Some(c.pollPeriodMs) == ParseIntStrict(d.pollPeriodMs)
            && c.ipRequest == (if Trim(d.ipRequest) == [] then None else Some(Trim(d.ipRequest)))
            && (match d.transport
                case Gpib => c.ip.None? && c.port.None? && c.comName.None? && c.gpibAddr == ParseIntStrict(d.gpibAddr)
                case Com => c.ip.None? && c.port.None? && c.gpibAddr.None? && c.comName == Some(Trim(d.comName))
                case _ =>
                  && c.gpibAddr.None? && c.comName.None?
                  && c.ip == Some(Trim(d.ip)) && c.port == ParseIntStrict(d.port))
            && (c.modbus.Some? <==> d.transport == ModbusTcp || d.transport == ModbusUdp)
            && (c.modbus.Some? ==>
                  && Some(c.modbus.value.discreteInputsBytes) == ParseCount(d.discreteInputsBytes)
                  && Some(c.modbus.value.coilsBytes) == ParseCount(d.coilsBytes)
                  && Some(c.modbus.value.holdingRegisters) == ParseCount(d.holdingRegisters)
                  && Some(c.modbus.value.inputRegisters) == ParseCount(d.inputRegisters))
            && |config.payload.variables| == |d.variables|
            && forall i | 0 <= i < |d.variables| ::
                 var v, typed := config.payload.variables[i], d.variables[i];
                 && v.name == Trim(typed.name) && v.category == Trim(typed.category)
                 && v.ctype == typed.ctype && v.graph == typed.graph
  {
    hide ParseIntStrict, ParseCount, Trim, VariableErrors;
    SubmittedIsUsable(d);
  }
}
