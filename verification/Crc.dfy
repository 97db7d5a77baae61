/** The frame check of the claw motor controller.  A frame is protected by the remainder of
    the message by x^16 + x^12 + x^5 + 1 (the generator of section 2 of ITU-T V.41), computed
    in a 32-bit register that is never masked to 16 bits.  A machine word is the sequence of
    its bits, bit 0 first. */
module Crc {
  import opened Arithmetic

  // ---------- Words ----------

  type Word = w: seq<bool> | |w| == 32 witness seq(32, i => false)

  type Byte = b: seq<bool> | |b| == 8 witness seq(8, i => false)

  function Zeros(n: nat): seq<bool> { seq(n, i => false) }

  function Xor(a: seq<bool>, b: seq<bool>): (c: seq<bool>)
    requires |a| == |b|
    ensures |c| == |a|
  {
    seq(|a|, i requires 0 <= i < |a| => a[i] != b[i])
  }

  /** `w << 1` in 32 bits: bit 31 is lost. */
  function ShiftLeft(w: Word): Word { [false] + w[..31] }

  /** `(unsigned int) b << 8`. */
  function AboveLowByte(b: Byte): Word { Zeros(8) + b + Zeros(16) }

  /** 0x1021. */
  function Generator(): Word { seq(32, e => e == 12 || e == 5 || e == 0) }

  function LowestBits(n: nat, k: nat): (bits: seq<bool>)
    ensures |bits| == k
  {
    if k == 0 then [] else [n % 2 == 1] + LowestBits(n / 2, k - 1)
  }

  /** The byte of a number. */
  function ToByte(n: nat): Byte { LowestBits(n, 8) }

  // ---------- The register ----------

  const BITS_PER_BYTE: nat := 8

  function Step(c: Word): Word {
    if c[15] then Xor(ShiftLeft(c), Generator()) else ShiftLeft(c)
  }

  function Steps(c: Word, n: nat): Word
    decreases n
  {
    if n == 0 then c else Steps(Step(c), n - 1)
  }

  /** The register after a message: each byte enters above the low byte, then eight steps. */
  function Register(message: seq<Byte>): Word {
    if message == [] then Zeros(32)
    else Steps(Xor(Register(message[..|message| - 1]), AboveLowByte(message[|message| - 1])), BITS_PER_BYTE)
  }

  lemma RegisterAppend(message: seq<Byte>, b: Byte)
    ensures Register(message + [b]) == Steps(Xor(Register(message), AboveLowByte(b)), BITS_PER_BYTE)
  {
    assert (message + [b])[..|message|] == message;
  }

  lemma RegisterNext(message: seq<Byte>, n: nat)
    requires n < |message|
    ensures Register(message[..n + 1]) ==
            Steps(Xor(Register(message[..n]), AboveLowByte(message[n])), BITS_PER_BYTE)
  {
    assert message[..n + 1] == message[..n] + [message[n]];
    RegisterAppend(message[..n], message[n]);
  }

  /** The half of the register that is sent. */
  function Low(c: Word): seq<bool> { c[..16] }

  /** A frame: the message, then the high and the low byte of its check. */
  function Frame(message: seq<Byte>): seq<Byte> {
    var crc := Register(message);
    message + [crc[8..16]] + [crc[..8]]
  }

  /** The magnitude of a velocity in percent, scaled to 0..127 and truncated to a byte. */
  function SpeedByte(velocity: real): Byte {
    var magnitude := if velocity < 0.0 then -velocity else velocity;
    ToByte((magnitude * 127.0 / 100.0).Floor)
  }

  /** The number that the bits stand for, bit 0 first. */
  function Number(bits: seq<bool>): nat {
    if bits == [] then 0 else (if bits[0] then 1 else 0) + 2 * Number(bits[1..])
  }

  function PowerOfTwo(k: nat): nat { if k == 0 then 1 else 2 * PowerOfTwo(k - 1) }

  lemma {:induction false} LowestBitsNumber(n: nat, k: nat)
    ensures PowerOfTwo(k) > 0 && Number(LowestBits(n, k)) == n % PowerOfTwo(k)
  {
    if k > 0 {
      LowestBitsNumber(n / 2, k - 1);
      HalfRemainder(n, PowerOfTwo(k - 1));
      assert LowestBits(n, k)[1..] == LowestBits(n / 2, k - 1);
    }
  }

  lemma PowerOfTwoByte()
    ensures PowerOfTwo(8) == 256
  {
    assert PowerOfTwo(4) == 16;
  }

  /** A byte is the number modulo 256. */
  lemma ToByteNumber(n: nat)
    ensures Number(ToByte(n)) == n % 256
  {
    hide LowestBits, Number, PowerOfTwo;
    LowestBitsNumber(n, 8);
    PowerOfTwoByte();
  }

  /** A velocity of up to 100 percent is sent as its magnitude in 127ths, rounded down. */
  lemma SpeedByteNumber(velocity: real)
    requires -100.0 <= velocity <= 100.0
    ensures var n := Number(SpeedByte(velocity)) as real;
            var magnitude := if velocity < 0.0 then -velocity else velocity;
            n * 100.0 <= magnitude * 127.0 < (n + 1.0) * 100.0
  {
    hide Number, ToByte;
    var magnitude := if velocity < 0.0 then -velocity else velocity;
    var q := magnitude * 127.0 / 100.0;
    assert 0.0 <= q <= 127.0;
    ToByteNumber(q.Floor);
  }

  /** What the serial port delivers within the timeout. */
  datatype Response = Timeout | Received(value: Byte)

  /** How a command ends: with an answer, with an exception, or never, at the locked mutex. */
  datatype Outcome = Acknowledged | Failed | Blocked

  function OutcomeOf(mutexLocked: bool, response: Response): Outcome {
    if mutexLocked then Blocked
    else if response == Received(ToByte(0xFF)) then Acknowledged
    else Failed
  }

  /** A command blocks exactly at the locked mutex, and is acknowledged exactly by the byte 0xFF. */
  lemma OutcomeExactly(mutexLocked: bool, response: Response)
    ensures OutcomeOf(mutexLocked, response) == Blocked <==> mutexLocked
    ensures OutcomeOf(mutexLocked, response) == Acknowledged <==>
            !mutexLocked && response.Received? && Number(response.value) == 255
  {
    hide Number;
    ToByteNumber(0xFF);
    if response.Received? {
      SameNumber(response.value, ToByte(0xFF));
    }
  }

  lemma {:induction false} SameNumber(a: seq<bool>, b: seq<bool>)
    requires |a| == |b|
    ensures Number(a) == Number(b) <==> a == b
  {
    if a != [] {
      SameNumber(a[1..], b[1..]);
      assert a == [a[0]] + a[1..] && b == [b[0]] + b[1..];
    }
  }

  class ClawMotorController {
    const DataBuffer: array<Byte>
    const Address: Byte
    var MutexLocked: bool
    var Written: seq<seq<Byte>>
    var Motor1Velocity: real
    var Motor2Velocity: real

    constructor (address: nat)
      ensures DataBuffer.Length == 16 && fresh(DataBuffer) && Address == ToByte(address)
      ensures !MutexLocked && Written == []
    {
      DataBuffer := new Byte[16](i => Zeros(8));
      Address := ToByte(address);
      MutexLocked, Written := false, [];
      Motor1Velocity := 0.0;
      Motor2Velocity := 0.0;
    }

    /** The inner loop of ComputeCRC. */
    static method ShiftByte(start: Word) returns (crc: Word)
      ensures crc == Steps(start, BITS_PER_BYTE)
    {
      crc := start;
      for bit := 0 to BITS_PER_BYTE
        invariant Steps(crc, BITS_PER_BYTE - bit) == Steps(start, BITS_PER_BYTE)
      {
        ghost var next := Step(crc);
        if crc[15] {
          crc := Xor(ShiftLeft(crc), Generator());
        } else {
          crc := ShiftLeft(crc);
        }
        assert crc == next;
      }
    }

    method ComputeCRC(numBytes: nat) returns (crc: Word)
      requires numBytes <= DataBuffer.Length
      ensures crc == Register(DataBuffer[..numBytes])
    {
      ghost var message := DataBuffer[..numBytes];
      crc := Zeros(32);
      for byte := 0 to numBytes
        invariant crc == Register(message[..byte])
      {
        RegisterNext(message, byte);
        crc := Xor(crc, AboveLowByte(DataBuffer[byte]));
        crc := ShiftByte(crc);
      }
      assert message[..numBytes] == message;
    }

    /** Puts a three-byte command and its check into the buffer. */
    method BuildFrame(command: nat, speed: Byte)
      requires DataBuffer.Length == 16
      modifies DataBuffer
      ensures DataBuffer[..5] == Frame([Address, ToByte(command), speed])
      ensures DataBuffer[5..] == old(DataBuffer[5..])
    {
      DataBuffer[0] := Address;
      DataBuffer[1] := ToByte(command);
      DataBuffer[2] := speed;
      var crc := ComputeCRC(3);
      assert DataBuffer[..3] == [Address, ToByte(command), speed];
      DataBuffer[3] := crc[8..16];
      DataBuffer[4] := crc[..8];
    }

    /** An exception leaves the mutex locked. */
    method WriteAndVerify(numBytes: nat, response: Response) returns (outcome: Outcome)
      requires numBytes <= DataBuffer.Length
      modifies `MutexLocked, `Written
      ensures outcome == OutcomeOf(old(MutexLocked), response) && MutexLocked == (outcome != Acknowledged)
      ensures Written == if outcome == Blocked then old(Written) else old(Written) + [DataBuffer[..numBytes]]
    {
      if MutexLocked {
        return Blocked;
      }
      MutexLocked := true;
      Written := Written + [DataBuffer[..numBytes]];
      if response == Timeout {
        return Failed;
      }
      if response.value != ToByte(0xFF) {
        return Failed;
      }
      MutexLocked := false;
      outcome := Acknowledged;
    }

    method SetMotor1Velocity(velocity: real, response: Response) returns (outcome: Outcome)
      requires DataBuffer.Length == 16
      modifies DataBuffer, `Motor1Velocity, `MutexLocked, `Written
      ensures DataBuffer[..5] == Frame([Address, ToByte(if velocity > 0.0 then 0 else 1), SpeedByte(velocity)])
      ensures outcome == OutcomeOf(old(MutexLocked), response) && MutexLocked == (outcome != Acknowledged)
      ensures Written == if outcome == Blocked then old(Written) else old(Written) + [DataBuffer[..5]]
      ensures Motor1Velocity == if outcome == Acknowledged then velocity else old(Motor1Velocity)
    {
      BuildFrame(if velocity > 0.0 then 0 else 1, SpeedByte(velocity));
      outcome := WriteAndVerify(5, response);
      if outcome == Acknowledged {
        Motor1Velocity := velocity;
      }
    }

    method SetMotor2Velocity(velocity: real, response: Response) returns (outcome: Outcome)
      requires DataBuffer.Length == 16
      modifies DataBuffer, `Motor2Velocity, `MutexLocked, `Written
      ensures DataBuffer[..5] == Frame([Address, ToByte(if velocity > 0.0 then 4 else 5), SpeedByte(velocity)])
      ensures outcome == OutcomeOf(old(MutexLocked), response) && MutexLocked == (outcome != Acknowledged)
      ensures Written == if outcome == Blocked then old(Written) else old(Written) + [DataBuffer[..5]]
      ensures Motor2Velocity == if outcome == Acknowledged then velocity else old(Motor2Velocity)
    {
      BuildFrame(if velocity > 0.0 then 4 else 5, SpeedByte(velocity));
      outcome := WriteAndVerify(5, response);
      if outcome == Acknowledged {
        Motor2Velocity := velocity;
      }
    }
  }

  // ---------- Linearity ----------

  lemma StepLinear(c: Word, d: Word)
    ensures Step(Xor(c, d)) == Xor(Step(c), Step(d))
  {}

  lemma {:induction false} StepsLinear(c: Word, d: Word, n: nat)
    ensures Steps(Xor(c, d), n) == Xor(Steps(c, n), Steps(d, n))
    decreases n
  {
    if n > 0 {
      StepLinear(c, d);
      StepsLinear(Step(c), Step(d), n - 1);
    }
  }

  lemma XorSwap(x: Word, y: Word, a: Byte, b: Byte)
    ensures Xor(Xor(x, y), AboveLowByte(Xor(a, b))) == Xor(Xor(x, AboveLowByte(a)), Xor(y, AboveLowByte(b)))
  {}

  function XorMessages(a: seq<Byte>, b: seq<Byte>): seq<Byte>
    requires |a| == |b|
  {
    seq(|a|, i requires 0 <= i < |a| => Xor(a[i], b[i]))
  }

  /** The check of a sum is the sum of the checks, over all 32 bits of the register. */
  lemma {:induction false} RegisterLinear(a: seq<Byte>, b: seq<Byte>)
    requires |a| == |b|
    ensures Register(XorMessages(a, b)) == Xor(Register(a), Register(b))
  {
    if a != [] {
      var n := |a| - 1;
      RegisterLinear(a[..n], b[..n]);
      assert XorMessages(a, b)[..n] == XorMessages(a[..n], b[..n]);
      var x, y := Register(a[..n]), Register(b[..n]);
      XorSwap(x, y, a[n], b[n]);
      StepsLinear(Xor(x, AboveLowByte(a[n])), Xor(y, AboveLowByte(b[n])), BITS_PER_BYTE);
    }
  }

  // ---------- The register bit by bit ----------

  /** Bits n - 1 to 0 of a byte, in transmission order. */
  function LowBits(b: Byte, n: nat): (bits: seq<bool>)
    requires n <= 8
    ensures |bits| == n && forall i :: 0 <= i < n ==> bits[i] == b[n - 1 - i]
  {
    if n == 0 then [] else [b[n - 1]] + LowBits(b, n - 1)
  }

  /** The bits of a byte in transmission order. */
  function ByteBits(b: Byte): seq<bool> { LowBits(b, BITS_PER_BYTE) }

  function Bits(message: seq<Byte>): (bits: seq<bool>)
    ensures |bits| == 8 * |message|
  {
    if message == [] then [] else Bits(message[..|message| - 1]) + ByteBits(message[|message| - 1])
  }

  /** Adds a bit at the top of the low half and steps. */
  function StepBit(c: Word, b: bool): Word { Step(c[15 := c[15] != b]) }

  function Run(c: Word, bits: seq<bool>): Word
    decreases bits
  {
    if bits == [] then c else Run(StepBit(c, bits[0]), bits[1..])
  }

  lemma {:induction false} RunAppend(c: Word, u: seq<bool>, v: seq<bool>)
    ensures Run(c, u + v) == Run(Run(c, u), v)
    decreases u
  {
    if u == [] {
      assert u + v == v;
    } else {
      assert (u + v)[1..] == u[1..] + v;
      RunAppend(StepBit(c, u[0]), u[1..], v);
    }
  }

  /** The last n bits of a byte, waiting at the top of the low half. */
  function Waiting(b: Byte, n: nat): Word
    requires n <= 8
  {
    seq(32, e => 16 - n <= e < 16 && b[e + n - 16])
  }

  lemma StepWaiting(c: Word, b: Byte, n: nat)
    requires 0 < n <= 8
    ensures Step(Xor(c, Waiting(b, n))) == Xor(StepBit(c, b[n - 1]), Waiting(b, n - 1))
  {
    var w, w' := Waiting(b, n), Waiting(b, n - 1);
    var x, d := Xor(c, w), c[15 := c[15] != b[n - 1]];
    assert x[15] == d[15];
    assert ShiftLeft(x) == Xor(ShiftLeft(d), w');
  }

  lemma {:induction false} StepsWaiting(c: Word, b: Byte, n: nat)
    requires n <= 8
    ensures Steps(Xor(c, Waiting(b, n)), n) == Run(c, LowBits(b, n))
    decreases n
  {
    if n == 0 {
      assert Xor(c, Waiting(b, n)) == c;
    } else {
      StepWaiting(c, b, n);
      assert LowBits(b, n)[1..] == LowBits(b, n - 1);
      StepsWaiting(StepBit(c, b[n - 1]), b, n - 1);
    }
  }

  lemma {:induction false} RegisterIsRun(message: seq<Byte>)
    ensures Register(message) == Run(Zeros(32), Bits(message))
  {
    if message != [] {
      var n := |message| - 1;
      RegisterIsRun(message[..n]);
      assert AboveLowByte(message[n]) == Waiting(message[n], BITS_PER_BYTE);
      StepsWaiting(Register(message[..n]), message[n], BITS_PER_BYTE);
      RunAppend(Zeros(32), Bits(message[..n]), ByteBits(message[n]));
    }
  }

  // ---------- A frame checks to zero ----------

  lemma {:induction false} ShiftOut(c: Word, n: nat, k: nat)
    requires k <= n <= 16
    requires forall e :: 16 - n <= e < 16 ==> !c[e]
    ensures Low(Steps(c, k)) == Zeros(k) + c[..16 - k]
    decreases k
  {
    hide Zeros, ShiftLeft, Xor, Generator;
    if k > 0 {
      assert Step(c) == ShiftLeft(c);
      ShiftedIs(c, k);
      ShiftOut(Step(c), n - 1, k - 1);
    } else {
      NoZeros(c[..16]);
    }
  }

  lemma ShiftedIs(c: Word, k: nat)
    requires 1 <= k <= 16
    ensures forall e :: 1 <= e < 32 ==> ShiftLeft(c)[e] == c[e - 1]
    ensures Zeros(k - 1) + ShiftLeft(c)[..17 - k] == Zeros(k) + c[..16 - k]
  {}

  lemma NoZeros(bits: seq<bool>)
    ensures Zeros(0) + bits == bits
  {}

  /** A message followed by its own two check bytes has check zero, whatever the unmasked
      upper half of the register holds. */
  lemma FrameChecksToZero(message: seq<Byte>)
    ensures Low(Register(Frame(message))) == Zeros(16)
  {
    var crc := Register(message);
    AppendTwo(message, crc[8..16], crc[..8]);
    CancelHigh(crc);
    CancelLow(Register(message + [crc[8..16]]), crc[..8]);
  }

  lemma AppendTwo(message: seq<Byte>, a: Byte, b: Byte)
    ensures Register(message + [a]) == Steps(Xor(Register(message), AboveLowByte(a)), BITS_PER_BYTE)
    ensures Register(message + [a] + [b]) == Steps(Xor(Register(message + [a]), AboveLowByte(b)), BITS_PER_BYTE)
  {
    RegisterAppend(message, a);
    RegisterAppend(message + [a], b);
  }

  lemma CancelHigh(c: Word)
    ensures Low(Steps(Xor(c, AboveLowByte(c[8..16])), BITS_PER_BYTE)) == Zeros(8) + c[..8]
  {
    var x := Xor(c, AboveLowByte(c[8..16]));
    ShiftOut(x, 8, BITS_PER_BYTE);
    assert x[..8] == c[..8];
  }

  lemma CancelLow(c: Word, low: Byte)
    requires Low(c) == Zeros(8) + low
    ensures Low(Steps(Xor(c, AboveLowByte(low)), BITS_PER_BYTE)) == Zeros(16)
  {
    var x := Xor(c, AboveLowByte(low));
    assert forall e :: 0 <= e < 16 ==> c[e] == Low(c)[e];
    ShiftOut(x, 8, BITS_PER_BYTE);
    assert x[..8] == Zeros(8);
  }

  // ---------- Bursts ----------

  ghost predicate AgreeBelow(c: Word, d: Word, n: nat)
    requires n <= 16
  {
    forall e :: 0 <= e < n ==> c[e] == d[e]
  }

  /** Two registers that end with the same low half after n bits agreed on all but the top
      n bits of it before: bit 0 of the result shows whether the generator was added. */
  lemma {:induction false} RunBackwards(c: Word, d: Word, u: seq<bool>, v: seq<bool>)
    requires |u| == |v| <= 16
    requires AgreeBelow(Run(c, u), Run(d, v), 16)
    ensures AgreeBelow(c, d, 16 - |u|)
    decreases u
  {
    if u != [] {
      var c', d' := StepBit(c, u[0]), StepBit(d, v[0]);
      RunBackwards(c', d', u[1..], v[1..]);
      assert c'[0] == d'[0];
      forall e | 0 <= e < 16 - |u|
        ensures c[e] == d[e]
      {
        assert c'[e + 1] == d'[e + 1];
      }
    }
  }

  lemma {:induction false} WindowInjective(c: Word, d: Word, u: seq<bool>, v: seq<bool>)
    requires |u| == |v| <= 16
    requires AgreeBelow(c, d, 16)
    requires AgreeBelow(Run(c, u), Run(d, v), 16)
    ensures u == v
    decreases u
  {
    if u != [] {
      var c', d' := StepBit(c, u[0]), StepBit(d, v[0]);
      RunBackwards(c', d', u[1..], v[1..]);
      assert c'[0] == d'[0];
      WindowInjective(c', d', u[1..], v[1..]);
    }
  }

  lemma {:induction false} TailInjective(c: Word, d: Word, w: seq<bool>)
    requires AgreeBelow(Run(c, w), Run(d, w), 16)
    ensures AgreeBelow(c, d, 16)
    decreases w
  {
    if w != [] {
      var c', d' := StepBit(c, w[0]), StepBit(d, w[0]);
      TailInjective(c', d', w[1..]);
      assert c'[0] == d'[0];
      forall e | 0 <= e < 15
        ensures c[e] == d[e]
      {
        assert c'[e + 1] == d'[e + 1];
      }
    }
  }

  lemma {:induction false} BitsInjective(f: seq<Byte>, g: seq<Byte>)
    requires Bits(f) == Bits(g)
    ensures f == g
  {
    if f != [] {
      var n := |f| - 1;
      assert Bits(f)[..8 * n] == Bits(f[..n]) && Bits(g)[..8 * n] == Bits(g[..n]);
      assert Bits(f)[8 * n..] == ByteBits(f[n]) && Bits(g)[8 * n..] == ByteBits(g[n]);
      BitsInjective(f[..n], g[..n]);
      ByteBitsInjective(f[n], g[n]);
      assert f == f[..n] + [f[n]] && g == g[..n] + [g[n]];
    }
  }

  lemma ByteBitsInjective(a: Byte, b: Byte)
    requires ByteBits(a) == ByteBits(b)
    ensures a == b
  {
    assert forall i :: 0 <= i < 8 ==> a[i] == ByteBits(a)[7 - i] && b[i] == ByteBits(b)[7 - i];
  }

  /** f and g differ only within the 16 bits from bit a on. */
  ghost predicate DifferByBurst(f: seq<Byte>, g: seq<Byte>, a: nat) {
    |f| == |g| && AgreeOutside(Bits(f), Bits(g), a)
  }

  ghost predicate AgreeOutside(u: seq<bool>, v: seq<bool>, a: nat)
    requires |u| == |v|
  {
    forall i :: 0 <= i < |u| && !(a <= i < a + 16) ==> u[i] == v[i]
  }

  lemma SameWindow(c: Word, u: seq<bool>, v: seq<bool>, w: seq<bool>)
    requires |u| == |v| <= 16
    requires AgreeBelow(Run(Run(c, u), w), Run(Run(c, v), w), 16)
    ensures u == v
  {
    TailInjective(Run(c, u), Run(c, v), w);
    WindowInjective(c, c, u, v);
  }

  lemma WindowChangesRun(u: seq<bool>, v: seq<bool>, i: nat, j: nat)
    requires |u| == |v| && i <= j <= |u| && j <= i + 16
    requires u[..i] == v[..i] && u[j..] == v[j..]
    requires AgreeBelow(Run(Zeros(32), u), Run(Zeros(32), v), 16)
    ensures u == v
  {
    Join(u, i, j);
    Join(v, i, j);
    RunInThree(u, u[..i], u[i..j], u[j..]);
    RunInThree(v, v[..i], v[i..j], v[j..]);
    SameWindow(Run(Zeros(32), u[..i]), u[i..j], v[i..j], u[j..]);
  }

  lemma BurstChangesRun(u: seq<bool>, v: seq<bool>, a: nat)
    requires |u| == |v| && AgreeOutside(u, v, a)
    requires AgreeBelow(Run(Zeros(32), u), Run(Zeros(32), v), 16)
    ensures u == v
  {
    var i := if a <= |u| then a else |u|;
    var j := if a + 16 <= |u| then a + 16 else |u|;
    assert u[..i] == v[..i];
    assert u[j..] == v[j..];
    WindowChangesRun(u, v, i, j);
  }

  lemma Join(u: seq<bool>, i: nat, j: nat)
    requires i <= j <= |u|
    ensures u == u[..i] + (u[i..j] + u[j..])
  {}

  lemma RunInThree(u: seq<bool>, p: seq<bool>, q: seq<bool>, r: seq<bool>)
    requires u == p + (q + r)
    ensures Run(Zeros(32), u) == Run(Run(Run(Zeros(32), p), q), r)
  {
    RunAppend(Zeros(32), p, q + r);
    RunAppend(Run(Zeros(32), p), q, r);
  }

  lemma LowEqual(c: Word, d: Word)
    requires Low(c) == Low(d)
    ensures AgreeBelow(c, d, 16)
  {
    assert forall e :: 0 <= e < 16 ==> c[e] == Low(c)[e] && d[e] == Low(d)[e];
  }

  /** Messages that differ only by a burst have different checks. */
  lemma BurstChangesCheck(f: seq<Byte>, g: seq<Byte>, a: nat)
    requires DifferByBurst(f, g, a) && f != g
    ensures Low(Register(f)) != Low(Register(g))
  {
    if Low(Register(f)) == Low(Register(g)) {
      LowEqual(Register(f), Register(g));
      RegisterIsRun(f);
      RegisterIsRun(g);
      BurstChangesRun(Bits(f), Bits(g), a);
      BitsInjective(f, g);
    }
  }

  /** Every error burst of at most 16 contiguous bits of a frame, check bytes included, is
      detected. */
  lemma BurstDetected(message: seq<Byte>, received: seq<Byte>, a: nat)
    requires DifferByBurst(Frame(message), received, a) && received != Frame(message)
    ensures Low(Register(received)) != Zeros(16)
  {
    FrameChecksToZero(message);
    BurstChangesCheck(Frame(message), received, a);
  }

  // ---------- Polynomials over GF(2) ----------

  /** A polynomial is the set of the exponents with coefficient one. */
  type Poly = set<nat>

  function Add(p: Poly, q: Poly): Poly { (p - q) + (q - p) }

  /** p * x^k */
  function Times(p: Poly, k: nat): (r: Poly)
    ensures forall e: nat :: e in r <==> e >= k && e - k in p
  {
    set e: nat | e in p :: e + k
  }

  function Term(bit: bool, g: Poly): Poly { if bit then g else {} }

  lemma TermSum(a: bool, b: bool, g: Poly)
    ensures Add(Term(a, g), Term(b, g)) == Term(a != b, g)
  {}

  /** The product of g with the polynomial whose coefficients are `bits`, highest first,
      by Horner's rule. */
  function Product(bits: seq<bool>, g: Poly): Poly {
    if bits == [] then {}
    else Add(Times(Product(bits[..|bits| - 1], g), 1), Term(bits[|bits| - 1], g))
  }

  lemma ProductAppend(bits: seq<bool>, b: bool)
    ensures Product(bits + [b], G) == Add(Times(Product(bits, G), 1), if b then G else {})
  {
    assert (bits + [b])[..|bits|] == bits;
  }

  /** The polynomial whose coefficients are `bits`, highest first. */
  function Value(bits: seq<bool>): Poly { Product(bits, {0}) }

  const G: Poly := {16, 12, 5, 0}

  ghost predicate DegreeBelow16(p: Poly) { forall e :: e in p ==> e < 16 }

  /** r is a remainder of the division of p by the generator. */
  ghost predicate IsRemainder(p: Poly, r: Poly) {
    DegreeBelow16(r) && exists q: seq<bool> :: p == Add(Product(q, G), r)
  }

  /** The low half of the register as a polynomial. */
  function LowPoly(c: Word): Poly { set e: nat | e < 16 && c[e] }

  lemma StepBitPoly(c: Word, b: bool)
    ensures LowPoly(StepBit(c, b)) ==
            Add(Add(Times(LowPoly(c), 1), Times(if b then {0} else {}, 16)), if c[15] != b then G else {})
  {}

  /** Horner's step keeps the division: `value` is the message so far, `bit` the next bit. */
  lemma DivideStep(value: Poly, bit: Poly, product: Poly, r: Poly, g: Poly)
    requires Times(value, 16) == Add(product, r)
    ensures Times(Add(Times(value, 1), bit), 16) ==
            Add(Add(Times(product, 1), g), Add(Add(Times(r, 1), Times(bit, 16)), g))
  {
    forall e: nat
      ensures e in Times(Add(Times(value, 1), bit), 16) <==>
              e in Add(Times(Times(value, 16), 1), Times(bit, 16))
    {
      assert e >= 17 ==> (e - 16 in Times(value, 1) <==> e - 17 in value);
      assert e >= 17 ==> (e - 1 in Times(value, 16) <==> e - 17 in value);
    }
  }

  /** The quotient bits of the division, one for each message bit. */
  lemma {:induction false} Divide(bits: seq<bool>) returns (q: seq<bool>)
    ensures Times(Value(bits), 16) == Add(Product(q, G), LowPoly(Run(Zeros(32), bits)))
  {
    if bits == [] {
      q := [];
    } else {
      var n := |bits| - 1;
      var b := bits[n];
      var q' := Divide(bits[..n]);
      var c := Run(Zeros(32), bits[..n]);
      assert bits == bits[..n] + [b];
      RunAppend(Zeros(32), bits[..n], [b]);
      assert Run(c, [b]) == StepBit(c, b);
      StepBitPoly(c, b);
      q := q' + [c[15] != b];
      ProductAppend(q', c[15] != b);
      var bit: Poly := if b then {0} else {};
      DivideStep(Value(bits[..n]), bit, Product(q', G), LowPoly(c), if c[15] != b then G else {});
    }
  }

  /** A multiple of the generator of degree below 16 is zero. */
  lemma {:induction false} SmallMultiple(q: seq<bool>)
    requires DegreeBelow16(Product(q, G))
    ensures Product(q, G) == {}
  {
    if q != [] {
      var n := |q| - 1;
      HighTerms(Product(q[..n], G), if q[n] then G else {});
      SmallMultiple(q[..n]);
      assert Times({}, 1) == {};
      assert q[n] ==> 16 in Product(q, G);
    }
  }

  lemma HighTerms(p: Poly, g: Poly)
    requires g <= G && DegreeBelow16(Add(Times(p, 1), g))
    ensures DegreeBelow16(p)
  {
    forall e: nat | e in p
      ensures e < 16
    {
      assert e + 1 in Times(p, 1);
      assert e + 1 > 16 ==> e + 1 !in g;
    }
  }

  /** The sum of two multiples is a multiple. */
  lemma {:induction false} SumOfMultiples(q: seq<bool>, s: seq<bool>) returns (t: seq<bool>)
    ensures Product(t, G) == Add(Product(q, G), Product(s, G))
    decreases |q|, |s|
  {
    if q == [] {
      t := s;
    } else if s == [] {
      t := q;
    } else {
      hide Times, Add;
      var m, n := |q| - 1, |s| - 1;
      var t' := SumOfMultiples(q[..m], s[..n]);
      t := t' + [q[m] != s[n]];
      ProductAppend(t', q[m] != s[n]);
      HornerSum(Product(q[..m], G), Product(s[..n], G), Term(q[m], G), Term(s[n], G));
      TermSum(q[m], s[n], G);
    }
  }

  lemma HornerSum(p: Poly, r: Poly, g: Poly, h: Poly)
    ensures Add(Times(Add(p, r), 1), Add(g, h)) == Add(Add(Times(p, 1), g), Add(Times(r, 1), h))
  {}

  lemma RemainderUnique(p: Poly, r: Poly, s: Poly)
    requires IsRemainder(p, r) && IsRemainder(p, s)
    ensures r == s
  {
    var q :| p == Add(Product(q, G), r);
    var u :| p == Add(Product(u, G), s);
    var t := SumOfMultiples(q, u);
    Exchange(Product(q, G), r, Product(u, G), s);
    SmallMultiple(t);
  }

  lemma Exchange(a: Poly, r: Poly, b: Poly, s: Poly)
    requires Add(a, r) == Add(b, s)
    ensures Add(a, b) == Add(r, s)
    ensures Add(r, s) == {} ==> r == s
  {
    assert forall e :: e in Add(a, r) <==> e in Add(b, s);
  }

  /** The low half of the register is the remainder of message * x^16 by the generator. */
  lemma CheckIsRemainder(message: seq<Byte>, r: Poly)
    ensures IsRemainder(Times(Value(Bits(message)), 16), r) <==> r == LowPoly(Register(message))
  {
    var p, c := Times(Value(Bits(message)), 16), LowPoly(Register(message));
    RegisterIsRun(message);
    var q := Divide(Bits(message));
    assert IsRemainder(p, c);
    if IsRemainder(p, r) {
      RemainderUnique(p, r, c);
    }
  }
}
