/** A PWM pin: the daemon that ramps the duty and reports it, and the host's mirror of it.
    Arithmetic is exact, and a message is the sequence of its fields. */
module Pwm {
  import opened Text

  // ---------- Messages ----------

  datatype Field = Word(text: string) | Value(value: real)

  function LevelsMessage(name: string, value: real, setPoint: real, ramp: real): seq<Field> {
    [Word(name), Word("val"), Value(value), Word("set"), Value(setPoint), Word("ramp"), Value(ramp), Word("\n")]
  }

  function CommandMessage(name: string, value: real, ramp: real): seq<Field> {
    [Word(name), Word("val"), Value(value), Word("ramp"), Value(ramp), Word("\n")]
  }

  // ---------- One step of the ramp ----------

  function Abs(x: real): real { if x < 0.0 then -x else x }

  function Max(x: real, y: real): real { if x < y then y else x }

  /** The duty after one step towards the set point. */
  function Moved(value: real, setPoint: real, ramp: real): real {
    if setPoint == value || setPoint < 0.0 then value
    else if ramp <= 0.0 then setPoint
    else if setPoint > value then
      if setPoint < value + ramp then setPoint else value + ramp
    else if setPoint > value - ramp then setPoint
    else value - ramp
  }

  /** A step goes towards the set point, not beyond it, by the ramp or by what is left; a negative
      set point stands for none. */
  lemma MovesTowards(value: real, setPoint: real, ramp: real)
    ensures var next := Moved(value, setPoint, ramp);
            if setPoint < 0.0 then next == value
            else
              && (value <= next <= setPoint || setPoint <= next <= value)
              && Abs(setPoint - next) == if ramp > 0.0 then Max(0.0, Abs(setPoint - value) - ramp) else 0.0
  {}

  function Steps(value: real, setPoint: real, ramp: real, k: nat): real {
    if k == 0 then value else Moved(Steps(value, setPoint, ramp, k - 1), setPoint, ramp)
  }

  function Times(k: nat, ramp: real): real { k as real * ramp }

  lemma TimesNext(k: nat, ramp: real)
    ensures Times(k + 1, ramp) == Times(k, ramp) + ramp && Times(0, ramp) == 0.0
  {}

  /** The distance to the set point after k steps. */
  lemma {:induction false} DistanceAfterSteps(value: real, setPoint: real, ramp: real, k: nat)
    requires setPoint >= 0.0
    ensures var at := Steps(value, setPoint, ramp, k);
            && (value <= at <= setPoint || setPoint <= at <= value)
            && Abs(setPoint - at) ==
               if k == 0 then Abs(setPoint - value)
               else if ramp > 0.0 then Max(0.0, Abs(setPoint - value) - Times(k, ramp))
               else 0.0
  {
    hide Moved, Times;
    if k > 0 {
      TimesNext(k - 1, ramp);
      DistanceAfterSteps(value, setPoint, ramp, k - 1);
      MovesTowards(Steps(value, setPoint, ramp, k - 1), setPoint, ramp);
    }
  }

  // ---------- The daemon ----------

  datatype Pin = Pin(enabled: bool, lastReportedEnabled: bool, value: real, lastReportedValue: real,
                     setPoint: real, ramp: real, lastReportedRamp: real)
  {
    function Set(): Pin { this.(value := Moved(value, setPoint, ramp)) }

    function Enable(): Pin {
      this.(enabled := true, value := 1.0, setPoint := 0.0, ramp := -1.0).Set()
    }

    function Process(newValue: real, newRamp: real): Pin {
      this.(setPoint := newValue, ramp := newRamp).Set()
    }

    predicate EnabledChanged() { enabled != lastReportedEnabled }

    predicate LevelsChanged() { value != lastReportedValue || ramp != lastReportedRamp }

    /** The pin after a report, whether or not the message fits. */
    function Report(): Pin {
      if EnabledChanged() then this.(lastReportedEnabled := enabled).Set()
      else if !enabled then this
      else if Set().LevelsChanged() then Set().(lastReportedValue := Set().value, lastReportedRamp := ramp)
      else Set()
    }

    /** A report has a message with the levels. */
    predicate Sends() { !EnabledChanged() && enabled && Set().LevelsChanged() }
  }

  /** A freshly initialised pin. */
  const FRESH := Pin(false, false, 0.0, -1.0, 0.0, -1.0, -1.0)

  predicate StartsWith(field: Field, prefix: string) { field.Word? && prefix <= field.text }

  /** The pin after a message without the name of the pin, and whether it was accepted.  Except
      for `disable` only the beginnings of the words are compared.  A value has no sign. */
  function Processed(p: Pin, fields: seq<Field>): (Pin, bool)
    requires fields != [] && (StartsWith(fields[0], "val") ==> |fields| >= 4)
  {
    if StartsWith(fields[0], "val") then
      if fields[1].Value? && fields[1].value >= 0.0 && StartsWith(fields[2], "ramp") && fields[3].Value?
      then (p.Process(fields[1].value, fields[3].value), true)
      else (p, false)
    else if StartsWith(fields[0], "enable") then (p.Enable(), true)
    else if fields[0] == Word("disable") then (p.(enabled := false), true)
    else (p, true)
  }

  class DaemonPin {
    var Id: int
    var Name: string
    var Enabled: bool
    var LastReportedEnabled: bool
    var PwmValue: real
    var LastReportedPwmValue: real
    var SetPoint: real
    var RampSpeed: real
    var LastReportedRampSpeed: real

    function State(): Pin
      reads this
    {
      Pin(Enabled, LastReportedEnabled, PwmValue, LastReportedPwmValue, SetPoint, RampSpeed, LastReportedRampSpeed)
    }

    /** On success the source falls off its end instead of returning true. */
    method Init(id: int, name: string) returns (valid: bool)
      modifies this
      ensures valid == (2 <= id <= 13)
      ensures if valid then State() == FRESH && Id == id && Name == name else State() == old(State())
    {
      if id < 2 || id > 13 {
        return false;
      }
      Id, Name := id, name;
      Enabled, LastReportedEnabled := false, false;
      PwmValue, LastReportedPwmValue := -1.0, -1.0;
      SetPoint := 0.0;
      RampSpeed, LastReportedRampSpeed := -1.0, -1.0;
      Set();
      valid := true;
    }

    method Enable()
      modifies this
      ensures State() == old(State()).Enable() && Id == old(Id) && Name == old(Name)
    {
      Enabled := true;
      PwmValue := 1.0;
      SetPoint := 0.0;
      RampSpeed := -1.0;
      Set();
    }

    method Disable()
      modifies this
      ensures State() == old(State()).(enabled := false) && Id == old(Id) && Name == old(Name)
    {
      Enabled := false;
    }

    method Set()
      modifies this`PwmValue
      ensures State() == old(State()).Set()
    {
      if SetPoint != PwmValue && SetPoint >= 0.0 {
        if RampSpeed <= 0.0 {
          PwmValue := SetPoint;
        } else {
          if SetPoint > PwmValue {
            if SetPoint < PwmValue + RampSpeed {
              PwmValue := SetPoint;
            } else {
              PwmValue := PwmValue + RampSpeed;
            }
          } else if SetPoint < PwmValue {
            if SetPoint > PwmValue - RampSpeed {
              PwmValue := SetPoint;
            } else {
              PwmValue := PwmValue - RampSpeed;
            }
          }
        }
      }
    }

    /** The number of characters written, -1 if they do not fit; the message is kept in `buf`. */
    method Report(buf0: seq<Field>, spaceRemaining: int, lengthOf: seq<Field> -> nat)
      returns (length: int, buf: seq<Field>)
      requires forall m: seq<Field> :: m != [] ==> lengthOf(m) > 0
      modifies this
      ensures State() == old(State()).Report() && Id == old(Id) && Name == old(Name)
      ensures var message :=
                if old(State()).EnabledChanged()
                then [Word(Name), Word(if Enabled then "Enabled" else "Disabled"), Word("\n")]
                else if old(State()).Sends() then LevelsMessage(Name, PwmValue, SetPoint, RampSpeed)
                else [];
              var messageLength := if message == [] then 0 else lengthOf(message);
              if messageLength > spaceRemaining && !(message == [] && !Enabled) then length == -1 && buf == buf0
              else length == messageLength && buf == if message == [] then buf0 else message
    {
      var tmpBuf: seq<Field> := [];
      var enabledChanged := false;
      var msgLength := 0;
      buf := buf0;
      if LastReportedEnabled != Enabled {
        LastReportedEnabled := Enabled;
        tmpBuf := [Word(Name), Word(if Enabled then "Enabled" else "Disabled"), Word("\n")];
        msgLength := lengthOf(tmpBuf);
        enabledChanged := true;
      } else if !Enabled {
        return 0, buf;
      }
      Set();
      if !enabledChanged && (PwmValue != LastReportedPwmValue || RampSpeed != LastReportedRampSpeed) {
        LastReportedPwmValue := PwmValue;
        LastReportedRampSpeed := RampSpeed;
        tmpBuf := LevelsMessage(Name, PwmValue, SetPoint, RampSpeed);
        msgLength := lengthOf(tmpBuf);
      }
      if msgLength > spaceRemaining {
        return -1, buf;
      } else if msgLength > 0 {
        buf := tmpBuf;
      }
      length := msgLength;
    }

    /** Without the four fields of a value message the source reads through a null pointer; an
        unknown message makes it fall off its own end. */
    method Process(message: seq<Field>) returns (accepted: bool)
      requires message != [] && (StartsWith(message[0], "val") ==> |message| >= 4)
      modifies this
      ensures Id == old(Id) && Name == old(Name)
      ensures (State(), accepted) == Processed(old(State()), message)
    {
      hide StartsWith;
      if StartsWith(message[0], "val") {
        if !message[1].Value? || message[1].value < 0.0 {
          return false;
        }
        if !StartsWith(message[2], "ramp") {
          return false;
        }
        if !message[3].Value? {
          return false;
        }
        SetPoint := message[1].value;
        RampSpeed := message[3].value;
        Set();
      } else if StartsWith(message[0], "enable") {
        Enable();
      } else if message[0] == Word("disable") {
        Disable();
      }
      accepted := true;
    }
  }

  // ---------- The host ----------

  datatype Mirror = Mirror(stagingRamp: real, lastReportedRamp: real, stagingValue: real, lastReportedValue: real)
  {
    predicate IsConsistant() { lastReportedRamp == stagingRamp && lastReportedValue == stagingValue }
  }

  predicate IsBlank(token: Field) { token.Word? && forall i :: 0 <= i < |token.text| ==> token.text[i] in " :\t\n\r" }

  /** The mirror after the fields of a message, and whether all of them were valid; what comes
      before an invalid field is kept. */
  function Parsed(m: Mirror, name: string, fields: seq<Field>): (Mirror, bool)
    decreases |fields|
  {
    if fields == [] then (m, true)
    else if fields[0] == Word("val") then
      if |fields| == 1 || !fields[1].Value? || !(0.0 <= fields[1].value <= 100.0) then (m, false)
      else Parsed(m.(lastReportedValue := fields[1].value), name, fields[2..])
    else if fields[0] == Word("ramp") then
      if |fields| == 1 || !fields[1].Value? || fields[1].value == 0.0 then (m, false)
      else Parsed(m.(lastReportedRamp := fields[1].value), name, fields[2..])
    else if fields[0] == Word("set") then
      Parsed(m, name, if |fields| == 1 then [] else fields[2..])
    else if fields[0] == Word(name) || IsBlank(fields[0]) then Parsed(m, name, fields[1..])
    else (m, false)
  }

  class HostPin {
    const Name: string
    var StagingRampSpeed: real
    var LastReportedRampSpeed: real
    var StagingValue: real
    var LastReportedValue: real
    var Sent: seq<seq<Field>>

    function State(): Mirror
      reads this
    {
      Mirror(StagingRampSpeed, LastReportedRampSpeed, StagingValue, LastReportedValue)
    }

    /** The source refuses a starting value outside the range by an exception. */
    constructor (name: string, startingRampSpeed: real, startingValue: real)
      requires 0.0 <= startingValue <= 100.0
      ensures Name == name && State() == Mirror(startingRampSpeed, -1.0, startingValue, -1.0)
      ensures Sent == [CommandMessage(name, startingValue, startingRampSpeed)]
    {
      Name := name;
      StagingRampSpeed, StagingValue := startingRampSpeed, startingValue;
      LastReportedRampSpeed, LastReportedValue := -1.0, -1.0;
      Sent := [];
      new;
      SetState();
    }

    /** Sends the staged numbers. */
    method SetState()
      modifies `Sent
      ensures Sent == old(Sent) + [StateToMessage()]
    {
      Sent := Sent + [StateToMessage()];
    }

    method SetRampSpeed(speed: real) returns (accepted: bool)
      modifies this
      ensures accepted == (speed != 0.0)
      ensures State() == if accepted then old(State()).(stagingRamp := speed) else old(State())
      ensures Sent == if accepted then old(Sent) + [CommandMessage(Name, StagingValue, speed)] else old(Sent)
    {
      if speed == 0.0 {
        return false;
      }
      StagingRampSpeed := speed;
      SetState();
      accepted := true;
    }

    method SetValue(value: real) returns (accepted: bool)
      modifies this
      ensures accepted == (0.0 <= value <= 100.0)
      ensures State() == if accepted then old(State()).(stagingValue := value) else old(State())
      ensures Sent == if accepted then old(Sent) + [CommandMessage(Name, value, StagingRampSpeed)] else old(Sent)
    {
      if value < 0.0 || value > 100.0 {
        return false;
      }
      StagingValue := value;
      SetState();
      accepted := true;
    }

    function StateToMessage(): seq<Field>
      reads this
    {
      CommandMessage(Name, StagingValue, StagingRampSpeed)
    }

    method ParseMessage(message: seq<Field>) returns (valid: bool)
      modifies this
      ensures Sent == old(Sent)
      ensures (State(), valid) == Parsed(old(State()), Name, if message == [] then [] else message[1..])
    {
      var messageStream := if message == [] then [] else message[1..];
      ghost var goal := Parsed(State(), Name, messageStream);
      while messageStream != []
        invariant Sent == old(Sent)
        invariant goal == Parsed(State(), Name, messageStream)
        decreases |messageStream|
      {
        var token := messageStream[0];
        if token == Word("val") {
          if |messageStream| == 1 || !messageStream[1].Value? {
            return false;
          }
          var receivedVal := messageStream[1].value;
          if receivedVal < 0.0 || receivedVal > 100.0 {
            return false;
          }
          LastReportedValue := receivedVal;
          messageStream := messageStream[2..];
        } else if token == Word("ramp") {
          if |messageStream| == 1 || !messageStream[1].Value? {
            return false;
          }
          var receivedVal := messageStream[1].value;
          if receivedVal == 0.0 {
            return false;
          }
          LastReportedRampSpeed := receivedVal;
          messageStream := messageStream[2..];
        } else if token == Word("set") {
          messageStream := if |messageStream| == 1 then [] else messageStream[2..];
        } else if token == Word(Name) || IsBlank(token) {
          messageStream := messageStream[1..];
        } else {
          return false;
        }
      }
      valid := true;
    }
  }

  lemma ParsesValue(m: Mirror, name: string, value: real, rest: seq<Field>)
    ensures Parsed(m, name, [Word("val"), Value(value)] + rest) ==
            if value < 0.0 || value > 100.0 then (m, false)
            else Parsed(m.(lastReportedValue := value), name, rest)
  {
    assert ([Word("val"), Value(value)] + rest)[2..] == rest;
  }

  lemma ParsesSetPoint(m: Mirror, name: string, setPoint: real, rest: seq<Field>)
    ensures Parsed(m, name, [Word("set"), Value(setPoint)] + rest) == Parsed(m, name, rest)
  {
    assert "set"[0] == 's' && "val"[0] == 'v' && "ramp"[0] == 'r';
    assert ([Word("set"), Value(setPoint)] + rest)[2..] == rest;
  }

  lemma ParsesRamp(m: Mirror, name: string, ramp: real, rest: seq<Field>)
    ensures Parsed(m, name, [Word("ramp"), Value(ramp)] + rest) ==
            if ramp == 0.0 then (m, false) else Parsed(m.(lastReportedRamp := ramp), name, rest)
  {
    assert "val"[0] == 'v' && "ramp"[0] == 'r';
    assert ([Word("ramp"), Value(ramp)] + rest)[2..] == rest;
  }

  lemma ParsesEnd(m: Mirror, name: string)
    ensures Parsed(m, name, [Word("\n")]) == (m, true)
  {
    assert "set"[0] == 's' && "val"[0] == 'v' && "ramp"[0] == 'r' && "\n"[0] == '\n';
    assert [Word("\n")][1..] == [];
    assert IsBlank(Word("\n"));
  }

  /** A list of fields is valid if and only if it is empty, or starts with a value from 0 to 100, a
      ramp other than 0, a set point of any kind, the name of the pin or white space, and goes on
      with a valid one.  At an invalid field the numbers before it are kept. */
  lemma ParsesExactly(m: Mirror, name: string, first: Field, rest: seq<Field>)
    requires name != "val" && name != "ramp" && name != "set"
    ensures var parsed, next := Parsed(m, name, [first] + rest), if rest == [] then [] else rest[1..];
            if first.Value? then parsed == (m, false)
            else if first.text == "val" then
              if rest == [] || rest[0].Word? || rest[0].value < 0.0 || rest[0].value > 100.0 then parsed == (m, false)
              else parsed == Parsed(m.(lastReportedValue := rest[0].value), name, next)
            else if first.text == "ramp" then
              if rest == [] || rest[0].Word? || rest[0].value == 0.0 then parsed == (m, false)
              else parsed == Parsed(m.(lastReportedRamp := rest[0].value), name, next)
            else if first.text == "set" then parsed == Parsed(m, name, next)
            else if first.text == name || Blank(first.text) then parsed == Parsed(m, name, rest)
            else parsed == (m, false)
    ensures Parsed(m, name, []) == (m, true)
  {
    var fields := [first] + rest;
    assert fields[1..] == rest;
    assert |fields| > 1 ==> fields[2..] == rest[1..] && fields[1] == rest[0];
  }

  predicate Blank(text: string) {
    forall i :: 0 <= i < |text| ==> text[i] == ':' || text[i] == ' ' || '\t' <= text[i] <= '\n' || text[i] == '\r'
  }

  /** The daemon's message sets both mirrored numbers, if they are in their ranges. */
  lemma ParsesLevels(m: Mirror, name: string, value: real, setPoint: real, ramp: real)
    requires 0.0 <= value <= 100.0 && ramp != 0.0
    ensures Parsed(m, name, LevelsMessage(name, value, setPoint, ramp)[1..]) ==
            (m.(lastReportedValue := value, lastReportedRamp := ramp), true)
  {
    hide Parsed;
    var end := [Word("\n")];
    var fromRamp := [Word("ramp"), Value(ramp)] + end;
    var fromSet := [Word("set"), Value(setPoint)] + fromRamp;
    var half := m.(lastReportedValue := value);
    assert LevelsMessage(name, value, setPoint, ramp)[1..] == [Word("val"), Value(value)] + fromSet;
    ParsesValue(m, name, value, fromSet);
    ParsesSetPoint(half, name, setPoint, fromRamp);
    ParsesRamp(half, name, ramp, end);
    ParsesEnd(half.(lastReportedRamp := ramp), name);
  }

  // ---------- Host and daemon together ----------

  /** Both ends of the line.  A message of the host is processed when it is sent; the messages
      about being enabled go to the peripheral manager. */
  datatype Line = Line(pin: Pin, host: Mirror)

  datatype Event = SetsValue(value: real) | SetsRamp(ramp: real) | Enables | Disables | Reports(fits: bool)

  function After(l: Line, e: Event): Line {
    match e
    case SetsValue(value) =>
      if !(0.0 <= value <= 100.0) then l
      else Line(l.pin.Process(value, l.host.stagingRamp), l.host.(stagingValue := value))
    case SetsRamp(ramp) =>
      if ramp == 0.0 then l
      else Line(l.pin.Process(l.host.stagingValue, ramp), l.host.(stagingRamp := ramp))
    case Enables => l.(pin := l.pin.Enable())
    case Disables => l.(pin := l.pin.(enabled := false))
    case Reports(fits) =>
      var reported := l.pin.Report();
      if l.pin.Sends() && fits
      then Line(reported, l.host.(lastReportedValue := reported.value, lastReportedRamp := reported.ramp))
      else l.(pin := reported)
  }

  /** A value message sets the point and the ramp and moves a step, if it has a word that begins with
      `val`, a number that is not negative, a word that begins with `ramp`, and a number; otherwise it
      is refused and changes nothing. */
  lemma ValueMessageExactly(p: Pin, word: string, fields: seq<Field>)
    requires "val" <= word && |fields| >= 3
    ensures Processed(p, [Word(word)] + fields) ==
            if fields[0].Value? && fields[1].Word? && fields[2].Value? && !(fields[0].value < 0.0) &&
               "ramp" <= fields[1].text
            then (p.(setPoint := fields[0].value, ramp := fields[2].value,
                     value := Moved(p.value, fields[0].value, fields[2].value)), true)
            else (p, false)
  {
    hide Moved;
    var message := [Word(word)] + fields;
    assert message[0] == Word(word) && message[1..] == fields;
    assert message[1] == fields[0] && message[2] == fields[1] && message[3] == fields[2];
  }

  /** A word that begins with `enable` enables the pin, exactly `disable` disables it, and any other
      changes nothing. */
  lemma WordExactly(p: Pin, word: string, rest: seq<Field>)
    requires !("val" <= word)
    ensures Processed(p, [Word(word)] + rest) ==
            (if "enable" <= word then p.(enabled := true, setPoint := 0.0, ramp := -1.0, value := 0.0)
             else if word == "disable" then p.(enabled := false)
             else p, true)
  {
    var message := [Word(word)] + rest;
    assert message[0] == Word(word);
    assert "enable"[0] == 'e' && "disable"[0] == 'd';
  }

  /** The effect of a host's setting is that of processing its message. */
  lemma CommandProcessed(p: Pin, name: string, value: real, ramp: real)
    requires value >= 0.0
    ensures Processed(p, CommandMessage(name, value, ramp)[1..]) == (p.Process(value, ramp), true)
  {
    var fields := CommandMessage(name, value, ramp)[1..];
    assert fields[0] == Word("val") && fields[1] == Value(value);
    assert fields[2] == Word("ramp") && fields[3] == Value(ramp);
  }

  /** The effect of a report that fits is that of parsing its message, which is always valid. */
  lemma ReportParsed(l: Line, name: string)
    requires InRange(l) && l.pin.Sends()
    ensures var pin := l.pin.Report();
            Parsed(l.host, name, LevelsMessage(name, pin.value, pin.setPoint, pin.ramp)[1..]) ==
            (After(l, Reports(true)).host, true)
  {
    hide Moved, Parsed;
    SetInRange(l.pin);
    ParsesLevels(l.host, name, l.pin.Report().value, l.pin.setPoint, l.pin.ramp);
  }

  function Run(l: Line, events: seq<Event>): Line
    decreases |events|
  {
    if events == [] then l else Run(After(l, events[0]), events[1..])
  }

  /** The duty is a percentage, and no ramp is zero. */
  predicate InRange(l: Line) {
    && 0.0 <= l.pin.value <= 100.0 && 0.0 <= l.pin.setPoint <= 100.0 && l.pin.ramp != 0.0
    && 0.0 <= l.host.stagingValue <= 100.0 && l.host.stagingRamp != 0.0
  }

  /** The host has what the daemon last reported. */
  predicate Mirrors(l: Line) {
    l.host.lastReportedValue == l.pin.lastReportedValue && l.host.lastReportedRamp == l.pin.lastReportedRamp
  }

  /** A fresh pin after the message of the host's constructor. */
  function Start(startingRamp: real, startingValue: real): Line {
    Line(FRESH.Process(startingValue, startingRamp), Mirror(startingRamp, -1.0, startingValue, -1.0))
  }

  lemma SetInRange(p: Pin)
    requires 0.0 <= p.value <= 100.0 && 0.0 <= p.setPoint <= 100.0
    ensures 0.0 <= p.Set().value <= 100.0
  {
    MovesTowards(p.value, p.setPoint, p.ramp);
  }

  lemma AfterInRange(l: Line, e: Event)
    requires InRange(l)
    ensures InRange(After(l, e))
    ensures Mirrors(l) ==> (Mirrors(After(l, e)) <==> !(e == Reports(false) && l.pin.Sends()))
  {
    hide Moved;
    SetInRange(l.pin);
    match e
    case SetsValue(value) =>
      if 0.0 <= value <= 100.0 {
        SetInRange(l.pin.(setPoint := value, ramp := l.host.stagingRamp));
      }
    case SetsRamp(ramp) =>
      if ramp != 0.0 {
        SetInRange(l.pin.(setPoint := l.host.stagingValue, ramp := ramp));
      }
    case Enables => SetInRange(l.pin.(enabled := true, value := 1.0, setPoint := 0.0, ramp := -1.0));
    case Disables =>
    case Reports(_) => SetInRange(l.pin.(lastReportedEnabled := l.pin.enabled));
  }

  lemma {:induction false} RunInRange(l: Line, events: seq<Event>)
    requires InRange(l)
    ensures InRange(Run(l, events))
    ensures Mirrors(l) && (forall i :: 0 <= i < |events| ==> events[i] != Reports(false)) ==> Mirrors(Run(l, events))
    decreases |events|
  {
    hide InRange, Mirrors, After;
    if events != [] {
      AfterInRange(l, events[0]);
      RunInRange(After(l, events[0]), events[1..]);
    }
  }

  // ---------- The mirror over whole runs ----------

  function Or<T>(o: Option<T>, default: T): T { match o case None => default case Some(x) => x }

  function PinLevels(p: Pin): (real, real) { (p.lastReportedValue, p.lastReportedRamp) }

  function HostLevels(m: Mirror): (real, real) { (m.lastReportedValue, m.lastReportedRamp) }

  /** The levels in the last report that was sent, or that was sent and fitted. */
  function LastReport(l: Line, events: seq<Event>, fitted: bool): Option<(real, real)>
    decreases |events|
  {
    if events == [] then None
    else
      var rest := LastReport(After(l, events[0]), events[1..], fitted);
      if rest.Some? then rest
      else if events[0].Reports? && l.pin.Sends() && (events[0].fits || !fitted) then Some(PinLevels(l.pin.Report()))
      else None
  }

  lemma AfterLevels(l: Line, e: Event)
    ensures var sends := e.Reports? && l.pin.Sends();
            && PinLevels(After(l, e).pin) == (if sends then PinLevels(l.pin.Report()) else PinLevels(l.pin))
            && HostLevels(After(l, e).host) ==
               (if sends && e.fits then PinLevels(l.pin.Report()) else HostLevels(l.host))
  {
    hide Moved;
  }

  lemma {:induction false} RunLevels(l: Line, events: seq<Event>)
    ensures PinLevels(Run(l, events).pin) == Or(LastReport(l, events, false), PinLevels(l.pin))
    ensures HostLevels(Run(l, events).host) == Or(LastReport(l, events, true), HostLevels(l.host))
    decreases |events|
  {
    hide After, Pin.Report, Pin.Sends, PinLevels, HostLevels;
    if events != [] {
      AfterLevels(l, events[0]);
      RunLevels(After(l, events[0]), events[1..]);
    }
  }

  /** Whether the last report that was sent fitted, nothing if none was sent. */
  function LastFits(l: Line, events: seq<Event>): Option<bool>
    decreases |events|
  {
    if events == [] then None
    else
      var rest := LastFits(After(l, events[0]), events[1..]);
      if rest.Some? then rest
      else if events[0].Reports? && l.pin.Sends() then Some(events[0].fits)
      else None
  }

  lemma {:induction false} LastFitsMeans(l: Line, events: seq<Event>)
    ensures LastFits(l, events) == Some(true) ==>
              LastReport(l, events, true).Some? && LastReport(l, events, true) == LastReport(l, events, false)
    ensures LastFits(l, events).Some? <==> LastReport(l, events, false).Some?
    ensures LastReport(l, events, true).Some? ==> LastFits(l, events).Some?
    decreases |events|
  {
    hide After, Pin.Report, Pin.Sends;
    if events != [] {
      LastFitsMeans(After(l, events[0]), events[1..]);
    }
  }

  /** At the end of any run the host has what the daemon last reported if and only if the last
      report sent fitted, or none was sent and it was so before, or the lost one happens to repeat
      the levels that the host has. */
  lemma MirrorsExactly(l: Line, events: seq<Event>)
    ensures Mirrors(Run(l, events)) <==>
            match LastFits(l, events)
            case None => Mirrors(l)
            case Some(fitted) =>
              fitted || LastReport(l, events, false) == Some(Or(LastReport(l, events, true), HostLevels(l.host)))
  {
    RunLevels(l, events);
    LastFitsMeans(l, events);
  }

  /** On every run from a fresh pin the duty stays in its range; nothing is mirrored at its start.
      In particular the host has what was reported if every message fits. */
  lemma RunFromStart(startingRamp: real, startingValue: real, events: seq<Event>)
    requires 0.0 <= startingValue <= 100.0 && startingRamp != 0.0
    ensures var start := Start(startingRamp, startingValue);
            var l := Run(start, events);
            && InRange(l)
            && (Mirrors(l) <==>
                match LastFits(start, events)
                case None => true
                case Some(fitted) =>
                  fitted || LastReport(start, events, false) == Some(Or(LastReport(start, events, true), (-1.0, -1.0))))
            && ((forall i :: 0 <= i < |events| ==> events[i] != Reports(false)) ==> Mirrors(l))
  {
    SetInRange(FRESH.(setPoint := startingValue, ramp := startingRamp));
    RunInRange(Start(startingRamp, startingValue), events);
    MirrorsExactly(Start(startingRamp, startingValue), events);
  }

  // ---------- Towards the set point ----------

  function Rounds(l: Line, n: nat): Line {
    if n == 0 then l else After(Rounds(l, n - 1), Reports(true))
  }

  /** An enabled pin that the host has just set. */
  predicate JustSet(l: Line) {
    && InRange(l) && l.pin.enabled
    && l.pin.setPoint == l.host.stagingValue && l.pin.ramp == l.host.stagingRamp
  }

  lemma {:induction false} RoundsStep(l: Line, n: nat)
    requires JustSet(l)
    ensures var m := Rounds(l, n);
            && m.pin.value == Steps(l.pin.value, l.pin.setPoint, l.pin.ramp, n)
            && JustSet(m) && (Mirrors(l) ==> Mirrors(m)) && m.pin.setPoint == l.pin.setPoint && m.pin.ramp == l.pin.ramp
            && m.host.stagingValue == l.host.stagingValue && m.host.stagingRamp == l.host.stagingRamp
            && (n > 0 ==> m.pin.enabled == m.pin.lastReportedEnabled)
            && (n > 1 ==> m.pin.lastReportedValue == m.pin.value && m.pin.lastReportedRamp == m.pin.ramp)
  {
    hide Moved;
    if n > 0 {
      RoundsStep(l, n - 1);
      AfterInRange(Rounds(l, n - 1), Reports(true));
    }
  }

  /** The duty n reports after the host has set a value: the command moves it once, and each
      report once more. */
  lemma DistanceAfterRounds(l: Line, value: real, n: nat)
    requires InRange(l) && l.pin.enabled && 0.0 <= value <= 100.0
    ensures var m := Rounds(After(l, SetsValue(value)), n);
            var ramp := l.host.stagingRamp;
            && 0.0 <= m.pin.value <= 100.0 && (Mirrors(l) ==> Mirrors(m))
            && (l.pin.value <= m.pin.value <= value || value <= m.pin.value <= l.pin.value)
            && Abs(value - m.pin.value) ==
               if ramp > 0.0 then Max(0.0, Abs(value - l.pin.value) - Times(n + 1, ramp)) else 0.0
  {
    hide Moved, Times;
    var commanded := After(l, SetsValue(value));
    AfterInRange(l, SetsValue(value));
    RoundsStep(commanded, n);
    StepsShift(l.pin.value, value, l.host.stagingRamp, n);
    DistanceAfterSteps(l.pin.value, value, l.host.stagingRamp, n + 1);
  }

  lemma {:induction false} StepsShift(value: real, setPoint: real, ramp: real, n: nat)
    ensures Steps(Moved(value, setPoint, ramp), setPoint, ramp, n) == Steps(value, setPoint, ramp, n + 1)
  {
    hide Moved;
    if n > 0 {
      StepsShift(value, setPoint, ramp, n - 1);
    }
  }

  /** The least number of steps of this size that cover the distance. */
  function StepsNeeded(distance: real, ramp: real): nat
    requires distance >= 0.0 && ramp > 0.0
  {
    var q := distance / ramp;
    if q.Floor as real == q then q.Floor else q.Floor + 1
  }

  /** No fewer steps are enough. */
  lemma StepsNeededLeast(distance: real, ramp: real, n: nat)
    requires distance >= 0.0 && ramp > 0.0 && n < StepsNeeded(distance, ramp)
    ensures Times(n, ramp) < distance
  {
    var q := distance / ramp;
    assert q * ramp == distance;
    assert n as real < q;
    assert (q - n as real) * ramp > 0.0;
  }

  lemma StepsNeededCover(distance: real, ramp: real, n: nat)
    requires distance >= 0.0 && ramp > 0.0 && n >= StepsNeeded(distance, ramp)
    ensures Times(n, ramp) >= distance
  {
    var q := distance / ramp;
    assert q * ramp == distance;
    assert n as real >= q;
    assert (n as real - q) * ramp >= 0.0;
  }

  /** From the number of steps needed plus two reports on, nothing is left to report and the
      host, unless an earlier report was lost, is consistent. */
  lemma Settles(l: Line, value: real, n: nat)
    requires InRange(l) && l.pin.enabled && 0.0 <= value <= 100.0
    requires n >= 2 + if l.host.stagingRamp > 0.0 then StepsNeeded(Abs(value - l.pin.value), l.host.stagingRamp) else 0
    ensures var m := Rounds(After(l, SetsValue(value)), n);
            && m.pin.value == value && (Mirrors(l) ==> m.host.IsConsistant())
            && !m.pin.EnabledChanged() && !m.pin.Sends()
  {
    hide Times, StepsNeeded;
    var commanded := After(l, SetsValue(value));
    AfterInRange(l, SetsValue(value));
    RoundsStep(commanded, n);
    DistanceAfterRounds(l, value, n);
    if l.host.stagingRamp > 0.0 {
      StepsNeededCover(Abs(value - l.pin.value), l.host.stagingRamp, n + 1);
    }
  }

  // ---------- Lost reports ----------

  function ReportEvents(fits: seq<bool>): seq<Event> {
    if fits == [] then [] else [Reports(fits[0])] + ReportEvents(fits[1..])
  }

  /** The reports move the pin in the same way whether or not they fit. */
  lemma {:induction false} RoundsShift(l: Line, fits: bool, n: nat)
    ensures Rounds(After(l, Reports(fits)), n).pin == Rounds(l, n + 1).pin
  {
    hide Pin.Report, Pin.Sends;
    if n > 0 {
      RoundsShift(l, fits, n - 1);
    }
  }

  lemma {:induction false} ReportsMove(l: Line, fits: seq<bool>)
    ensures var m := Run(l, ReportEvents(fits));
            && m.pin == Rounds(l, |fits|).pin
            && m.host.stagingValue == l.host.stagingValue && m.host.stagingRamp == l.host.stagingRamp
    decreases |fits|
  {
    hide Pin.Report, Pin.Sends;
    if fits != [] {
      var events := ReportEvents(fits);
      assert events[0] == Reports(fits[0]) && events[1..] == ReportEvents(fits[1..]);
      ReportsMove(After(l, events[0]), fits[1..]);
      RoundsShift(l, fits[0], |fits| - 1);
    }
  }

  /** An enabled pin is at duty 0 until it is set again, whatever it was before and whatever is
      reported, and has no ramp. */
  lemma EnabledIsOff(l: Line, fits: seq<bool>)
    ensures var pin := Run(After(l, Enables), ReportEvents(fits)).pin;
            pin.enabled && pin.value == 0.0 && pin.setPoint == 0.0 && pin.ramp == -1.0
  {
    ReportsMove(After(l, Enables), fits);
    RoundsOff(After(l, Enables), |fits|);
  }

  lemma {:induction false} RoundsOff(l: Line, n: nat)
    requires l.pin.enabled && l.pin.value == 0.0 && l.pin.setPoint == 0.0 && l.pin.ramp == -1.0
    ensures var pin := Rounds(l, n).pin;
            pin.enabled && pin.value == 0.0 && pin.setPoint == 0.0 && pin.ramp == -1.0
  {
    if n > 0 {
      RoundsOff(l, n - 1);
    }
  }

  /** A disabled pin moves at most once more, when it reports that it is disabled, and sends no
      levels. */
  lemma {:induction false} DisabledStops(l: Line, n: nat)
    ensures var at, pin := After(l, Disables).pin, Rounds(After(l, Disables), n).pin;
            && !pin.enabled && !pin.Sends() && pin.setPoint == l.pin.setPoint && pin.ramp == l.pin.ramp
            && pin.value == (if n == 0 || !l.pin.lastReportedEnabled then l.pin.value
                             else Moved(l.pin.value, l.pin.setPoint, l.pin.ramp))
            && pin.lastReportedEnabled == (n == 0 && l.pin.lastReportedEnabled)
  {
    hide Moved;
    if n > 0 {
      DisabledStops(l, n - 1);
    }
  }

  /** Nothing that a pin can have is reported at its start: its first report after it was enabled, and
      after it has reported that, sends the levels. */
  lemma FirstReportSends(startingRamp: real, startingValue: real, fits: bool)
    ensures var start := Start(startingRamp, startingValue);
            !start.pin.enabled && FRESH.value == 0.0 && After(After(start, Enables), Reports(fits)).pin.Sends()
  {
    hide Moved;
    var l := After(Start(startingRamp, startingValue), Enables);
    assert l.pin.value == 0.0 && l.pin.enabled by {
      EnabledIsOff(Start(startingRamp, startingValue), []);
      assert Run(l, ReportEvents([])) == l;
    }
    EnabledIsOff(Start(startingRamp, startingValue), [fits]);
    assert ReportEvents([fits])[1..] == [];
  }

  predicate Settled(p: Pin) {
    && p.value == p.setPoint && p.enabled == p.lastReportedEnabled
    && p.lastReportedValue == p.value && p.lastReportedRamp == p.ramp
  }

  lemma {:induction false} SettledSendsNothing(l: Line, fits: seq<bool>)
    requires Settled(l.pin)
    ensures LastFits(l, ReportEvents(fits)).None?
    decreases |fits|
  {
    if fits != [] {
      var events := ReportEvents(fits);
      assert events[0] == Reports(fits[0]) && events[1..] == ReportEvents(fits[1..]);
      SettledSendsNothing(After(l, events[0]), fits[1..]);
    }
  }

  /** A report that fitted and was followed by one that was lost did not have the set point. */
  lemma {:induction false} EarlierLevels(l: Line, fits: seq<bool>)
    requires l.pin.enabled
    ensures var events := ReportEvents(fits);
            LastFits(l, events) == Some(false) && LastReport(l, events, true).Some? ==>
              LastReport(l, events, true).value.0 != l.pin.setPoint
    decreases |fits|
  {
    hide Moved;
    if fits != [] {
      var events := ReportEvents(fits);
      assert events[0] == Reports(fits[0]) && events[1..] == ReportEvents(fits[1..]);
      var next := After(l, events[0]);
      EarlierLevels(next, fits[1..]);
      LastFitsMeans(next, events[1..]);
      if Settled(next.pin) {
        SettledSendsNothing(next, fits[1..]);
      }
    }
  }

  /** After the host has set a pin, and reports enough to settle it, the host is consistent if and
      only if the last report sent fitted, or none fitted and it was consistent before. */
  lemma ConsistentExactly(l: Line, fits: seq<bool>)
    requires JustSet(l)
    requires |fits| >= 2 + if l.pin.ramp > 0.0 then StepsNeeded(Abs(l.pin.setPoint - l.pin.value), l.pin.ramp) else 0
    ensures var events := ReportEvents(fits);
            Run(l, events).host.IsConsistant() <==>
            || LastFits(l, events) == Some(true)
            || (LastReport(l, events, true).None? && l.host.IsConsistant())
  {
    hide Times, StepsNeeded, Run, LastFits, LastReport, Moved, Steps, Rounds;
    var events := ReportEvents(fits);
    ReportsMove(l, fits);
    RoundsStep(l, |fits|);
    DistanceAfterSteps(l.pin.value, l.pin.setPoint, l.pin.ramp, |fits|);
    if l.pin.ramp > 0.0 {
      StepsNeededCover(Abs(l.pin.setPoint - l.pin.value), l.pin.ramp, |fits|);
    }
    RunLevels(l, events);
    LastFitsMeans(l, events);
    EarlierLevels(l, fits);
    var m := Run(l, events);
    assert PinLevels(m.pin) == (l.pin.setPoint, l.pin.ramp);
    assert m.host.IsConsistant() <==> HostLevels(m.host) == PinLevels(m.pin);
    assert l.host.IsConsistant() <==> HostLevels(l.host) == PinLevels(m.pin);
    var last, got := LastFits(l, events), LastReport(l, events, true);
    if last.Some? && !last.value {
      assert last == Some(false);
    } else if last.Some? {
      assert last == Some(true);
    }
  }

  /** Two lost reports can leave the host consistent: it still has the value to which the duty
      comes back. */
  lemma LostYetConsistent()
    ensures var l := Line(Pin(true, true, 14.0, 10.0, 10.0, 2.0, 2.0), Mirror(2.0, 2.0, 10.0, 10.0));
            && JustSet(l) && Mirrors(l) && l.pin.Sends() && LastFits(l, ReportEvents([false, false])) == Some(false)
            && Run(l, ReportEvents([false, false])).host.IsConsistant()
  {
    var l := Line(Pin(true, true, 14.0, 10.0, 10.0, 2.0, 2.0), Mirror(2.0, 2.0, 10.0, 10.0));
    var m := After(l, Reports(false));
    assert m.pin.value == 12.0 && m.pin.Sends();
    var events := ReportEvents([false, false]);
    assert events == [Reports(false), Reports(false)] by {
      assert [false, false][1..] == [false] && [false][1..] == [];
    }
    assert events[1..] == [Reports(false)] && events[1..][1..] == [];
    var n := After(m, Reports(false));
    assert LastFits(n, []) == None && LastFits(m, events[1..]) == Some(false);
    assert Run(m, events[1..]) == n;
  }

  lemma {:induction false} SettledStays(l: Line, fits: seq<bool>)
    requires Settled(l.pin)
    ensures Run(l, ReportEvents(fits)) == l
    decreases |fits|
  {
    if fits != [] {
      var events := ReportEvents(fits);
      assert events[0] == Reports(fits[0]) && events[1..] == ReportEvents(fits[1..]);
      SettledStays(l, fits[1..]);
    }
  }

  /** A last report that does not fit is not repeated: the daemon counts it as sent, and no number
      of further reports changes anything.  The host stays wrong until the daemon sends again, and
      is right when the last report sent since then fitted. */
  lemma LostUntilSent(l: Line, fits: seq<bool>, events: seq<Event>)
    requires JustSet(l) && Mirrors(l) && l.pin.value == l.pin.setPoint && !l.pin.EnabledChanged() && l.pin.Sends()
    ensures var lost := After(l, Reports(false));
            && Run(lost, ReportEvents(fits)) == lost && lost.host == l.host && !lost.host.IsConsistant()
            && (LastFits(lost, events).None? ==> !Mirrors(Run(lost, events)))
            && (LastFits(lost, events) == Some(true) ==> Mirrors(Run(lost, events)))
  {
    var lost := After(l, Reports(false));
    SettledStays(lost, fits);
    MirrorsExactly(lost, events);
  }

  /** A run from a fresh pin in which the next report can be the one that is lost. */
  lemma ReportCanBeLost(startingRamp: real, startingValue: real, value: real)
    requires startingRamp < 0.0 && 0.0 <= startingValue <= 100.0 && 0.0 <= value <= 100.0
    ensures var l := Run(Start(startingRamp, startingValue), [Enables, Reports(true), SetsValue(value)]);
            JustSet(l) && Mirrors(l) && l.pin.value == l.pin.setPoint && !l.pin.EnabledChanged() && l.pin.Sends()
  {
    var start := Start(startingRamp, startingValue);
    var enabled := After(start, Enables);
    var told := After(enabled, Reports(true));
    RunThree(start, Enables, Reports(true), SetsValue(value));
    assert told.pin.enabled && told.pin.lastReportedEnabled && told.pin.lastReportedValue == -1.0;
  }

  lemma RunThree(l: Line, a: Event, b: Event, c: Event)
    ensures Run(l, [a, b, c]) == After(After(After(l, a), b), c)
  {
    hide After;
    var m := After(l, a);
    var n := After(m, b);
    assert Run(n, [c]) == After(n, c) by {
      assert [c][1..] == [];
    }
    assert Run(m, [b, c]) == Run(n, [c]);
    assert [a, b, c][1..] == [b, c] && [b, c][1..] == [c] && [c][1..] == [];
  }
}
