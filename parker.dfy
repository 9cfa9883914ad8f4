/** The Parker Gemini GV6 servo controller driver.  Every command is a
    mnemonic written to the serial connection with a carriage return after
    it; a query writes its mnemonic and then reads the reply.  The reply
    lines are a parameter of each query: the serial read is not modelled. */
module Parker {
  import opened Wrappers
  import opened Numerals
  import opened Replies
  import opened Text

  /** Degrees of shaft rotation per encoder count (90 degrees per 200000
      counts), kept as an exact rational. */
  const DegreesPerCount: real := 0.00045

  /** The configuration sent on construction, in order: echo off, hardware
      limits off, absolute positioning, average acceleration 1, acceleration
      1, velocity 3. */
  const DefaultCommands: seq<string> := ["ECHO0", "LH0", "MA1", "MC0", "AA1.0", "A1.0", "V3.0"]

  /** Each command as it appears on the wire. */
  function Framed(commands: seq<string>): (wire: seq<string>)
    ensures |wire| == |commands|
    ensures forall i :: 0 <= i < |commands| ==> wire[i] == commands[i] + "\r"
  {
    seq(|commands|, i requires 0 <= i < |commands| => commands[i] + "\r")
  }

  /** Framing distributes over a sequence of commands sent one after another. */
  lemma {:induction false} FramedAppend(first: seq<string>, second: seq<string>)
    ensures Framed(first + second) == Framed(first) + Framed(second)
  {
    var both := Framed(first + second);
    assert |both| == |Framed(first) + Framed(second)|;
    forall i | 0 <= i < |both| ensures both[i] == (Framed(first) + Framed(second))[i] {
      if i < |first| {
        assert (first + second)[i] == first[i];
      } else {
        assert (first + second)[i] == second[i - |first|];
      }
    }
  }

  /** The exception raised by a call to a method the object does not have. */
  datatype CallError = AttributeError(name: string)

  /** The serial line.  Only the outgoing side is kept: every string written
      to it, oldest first. */
  class Connection {
    const port: string
    const baudRate: nat
    const timeoutMillis: nat
    var transmitted: seq<string>

    constructor (port: string, baudRate: nat, timeoutMillis: nat)
      ensures this.port == port && this.baudRate == baudRate && this.timeoutMillis == timeoutMillis
      ensures transmitted == []
    {
      this.port := port;
      this.baudRate := baudRate;
      this.timeoutMillis := timeoutMillis;
      transmitted := [];
    }

    method Write(text: string)
      modifies this
      ensures transmitted == old(transmitted) + [text]
    {
      transmitted := transmitted + [text];
    }
  }

  class ParkerGV6 {
    const connection: Connection

    /** Opens the port at 9600 baud with a 0.5 s timeout and sends the
        default configuration. */
    constructor (port: string)
      ensures fresh(connection)
      ensures connection.port == port && connection.baudRate == 9600 && connection.timeoutMillis == 500
      ensures connection.transmitted == Framed(DefaultCommands)
    {
      connection := new Connection(port, 9600, 500);
      new;
      SetDefaults();
    }

    /** Sends one command followed by a carriage return, and nothing else. */
    method Write(command: string)
      modifies connection
      ensures connection.transmitted == old(connection.transmitted) + [command + "\r"]
    {
      connection.Write(command + "\r");
    }

    /** A query: the command is sent, then the reply lines are normalised. */
    method Ask(command: string, reply: seq<string>) returns (text: string)
      modifies connection
      ensures connection.transmitted == old(connection.transmitted) + [command + "\r"]
      ensures text == Read(reply)
    {
      Write(command);
      text := Read(reply);
    }

    method SetDefaults()
      modifies connection
      ensures connection.transmitted == old(connection.transmitted) + Framed(DefaultCommands)
    {
      SetEcho(false);
      SetHardwareLimits(false);
      SetAbsolutePosition();
      Write("AA1.0");
      Write("A1.0");
      Write("V3.0");
    }

    /** As written: after "RESET" the method calls `setDefault`, which the
        class does not define, so the call fails there; the defaults and
        "DRIVE1" are never sent.  The five-second pause is not modelled. */
    method Reset() returns (raised: CallError)
      modifies connection
      ensures connection.transmitted == old(connection.transmitted) + Framed(["RESET"])
      ensures raised == AttributeError("setDefault")
    {
      Write("RESET");
      raised := AttributeError("setDefault");
    }

    /** The reset its authors intended: "RESET", the defaults, then the
        drive enabled. */
    method ResetAsIntended()
      modifies connection
      ensures connection.transmitted == old(connection.transmitted) + Framed(["RESET"] + DefaultCommands + ["DRIVE1"])
    {
      ghost var before := connection.transmitted;
      Write("RESET");
      ghost var reset := Framed(["RESET"]);
      assert connection.transmitted == before + reset;
      SetDefaults();
      Enable();
      FramedAppend(["RESET"], DefaultCommands);
      FramedAppend(["RESET"] + DefaultCommands, ["DRIVE1"]);
      assert connection.transmitted == before + reset + Framed(DefaultCommands) + Framed(["DRIVE1"]);
    }

    method Enable()
      modifies connection
      ensures connection.transmitted == old(connection.transmitted) + Framed(["DRIVE1"])
    {
      Write("DRIVE1");
    }

    method Disable()
      modifies connection
      ensures connection.transmitted == old(connection.transmitted) + Framed(["DRIVE0"])
    {
      Write("DRIVE0");
    }

    /** The status report: one piece per terminator-separated line. */
    method Status(reply: seq<string>) returns (lines: seq<string>)
      modifies connection
      ensures connection.transmitted == old(connection.transmitted) + Framed(["TASF"])
      ensures lines == StatusLines(Read(reply))
      ensures |lines| >= 1 && Join(lines, Terminator) == Read(reply)
      ensures forall p :: p in lines ==> !Contains(p, Terminator)
    {
      var text := Ask("TASF", reply);
      lines := StatusLines(text);
      StatusLinesRoundTrip(text, lines);
    }

    /** The motor counts as moving when the position reply holds no count. */
    method IsMoving(reply: seq<string>) returns (moving: bool)
      modifies connection
      ensures connection.transmitted == old(connection.transmitted) + Framed(["TPE"])
      ensures moving <==> PositionOf(Read(reply)).None?
    {
      var position := GetPosition(reply);
      moving := position == None;
    }

    method GetAngle(reply: seq<string>) returns (angle: Option<real>)
      modifies connection
      ensures connection.transmitted == old(connection.transmitted) + Framed(["TPE"])
      ensures angle.None? <==> PositionOf(Read(reply)).None?
      ensures angle.Some? ==> angle.value == PositionOf(Read(reply)).value as real * DegreesPerCount
    {
      var position := GetPosition(reply);
      if position != None {
        angle := Some(position.value as real * DegreesPerCount);
      } else {
        angle := None;
      }
    }

    method GetAngleError(reply: seq<string>) returns (angle: Option<real>)
      modifies connection
      ensures connection.transmitted == old(connection.transmitted) + Framed(["TPER"])
      ensures angle.None? <==> PositionErrorOf(Read(reply)).None?
      ensures angle.Some? ==> angle.value == PositionErrorOf(Read(reply)).value as real * DegreesPerCount
    {
      var positionError := GetPositionError(reply);
      if positionError != None {
        angle := Some(positionError.value as real * DegreesPerCount);
      } else {
        angle := None;
      }
    }

    /** The count after "TPE" in the reply, or None while the controller
        gives none (during a move). */
    method GetPosition(reply: seq<string>) returns (position: Option<int>)
      modifies connection
      ensures connection.transmitted == old(connection.transmitted) + Framed(["TPE"])
      ensures position == PositionOf(Read(reply))
    {
      var text := Ask("TPE", reply);
      position := PositionOf(text);
    }

    method GetPositionError(reply: seq<string>) returns (positionError: Option<int>)
      modifies connection
      ensures connection.transmitted == old(connection.transmitted) + Framed(["TPER"])
      ensures positionError == PositionErrorOf(Read(reply))
    {
      var text := Ask("TPER", reply);
      positionError := PositionErrorOf(text);
    }

    /** Sends the setpoint, in counts, as "D" and its decimal text. */
    method SetPosition(counts: int)
      modifies connection
      ensures connection.transmitted == old(connection.transmitted) + ["D" + Decimal(counts) + "\r"]
    {
      Write("D" + Decimal(counts));
    }

    method Move()
      modifies connection
      ensures connection.transmitted == old(connection.transmitted) + Framed(["GO"])
    {
      Write("GO");
    }

    method Stop()
      modifies connection
      ensures connection.transmitted == old(connection.transmitted) + Framed(["S"])
    {
      Write("S");
    }

    method Kill()
      modifies connection
      ensures connection.transmitted == old(connection.transmitted) + Framed(["K"])
    {
      Write("K");
    }

    method SetAbsolutePosition()
      modifies connection
      ensures connection.transmitted == old(connection.transmitted) + Framed(["MA1", "MC0"])
    {
      Write("MA1");
      Write("MC0");
    }

    method SetRelativePosition()
      modifies connection
      ensures connection.transmitted == old(connection.transmitted) + Framed(["MA0", "MC0"])
    {
      Write("MA0");
      Write("MC0");
    }

    method SetHardwareLimits(enable: bool := false)
      modifies connection
      ensures connection.transmitted == old(connection.transmitted) + Framed([if enable then "LH1" else "LH0"])
    {
      if enable {
        Write("LH1");
      } else {
        Write("LH0");
      }
    }

    method SetSoftwareLimits(positive: int, negative: int)
      modifies connection
      ensures connection.transmitted == old(connection.transmitted) +
                                        ["LSPOS" + Decimal(positive) + "\r", "LSNEG" + Decimal(negative) + "\r"]
    {
      Write("LSPOS" + Decimal(positive));
      Write("LSNEG" + Decimal(negative));
    }

    method SetEcho(enable: bool := false)
      modifies connection
      ensures connection.transmitted == old(connection.transmitted) + Framed([if enable then "ECHO1" else "ECHO0"])
    {
      if enable {
        Write("ECHO1");
      } else {
        Write("ECHO0");
      }
    }
  }

  /** The controller reads back the setpoint the driver sent: after the
      mnemonic, the wire text parses to the very count. */
  lemma SetpointReadsBack(mnemonic: string, n: int)
    ensures ParseSigned((mnemonic + Decimal(n) + "\r")[|mnemonic|..]) == Some(n)
  {
    assert (mnemonic + Decimal(n) + "\r")[|mnemonic|..] == Decimal(n) + "\r";
    DecimalRoundTrip(n, "\r");
  }

  /** The reset as written sends only the first of the commands the intended
      reset sends, and never enables the drive. */
  lemma ResetStopsEarly()
    ensures Framed(["RESET"]) == Framed(["RESET"] + DefaultCommands + ["DRIVE1"])[..1]
    ensures "DRIVE1\r" !in Framed(["RESET"])
    ensures |Framed(["RESET"] + DefaultCommands + ["DRIVE1"])| == 9
  {
    var intended := Framed(["RESET"] + DefaultCommands + ["DRIVE1"]);
    assert intended[0] == "RESET\r";
    assert Framed(["RESET"]) == ["RESET\r"];
  }

  /** Limits 100 and -50 go out as LSPOS100 then LSNEG-50. */
  method SoftwareLimitsExample(motor: ParkerGV6)
    modifies motor.connection
    ensures motor.connection.transmitted == old(motor.connection.transmitted) + ["LSPOS100\r", "LSNEG-50\r"]
  {
    motor.SetSoftwareLimits(100, -50);
    assert Decimal(100) == "100" by {
      assert NatDigits(10) == "10";
    }
    assert Decimal(-50) == "-50" by {
      assert NatDigits(50) == "50";
    }
    assert "LSPOS" + "100" + "\r" == "LSPOS100\r";
    assert "LSNEG" + "-50" + "\r" == "LSNEG-50\r";
  }
}
