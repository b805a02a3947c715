/**
 * The decisions the main loop of old/client.py makes on each frame: the time shown in the
 * score bar, the direction read from the arrow keys, and whether that direction is sent to
 * the server now or held back. Drawing, the keyboard and the clock are parameters.
 */
module ClientRules {
  import opened Wrappers
  import opened Geometry
  import opened GameModel
  import opened ServerTick

  // ------------------------------------------------------------- clock

  /** The remaining time as whole minutes and seconds. */
  datatype Clock = Clock(minutes: nat, seconds: nat)

  function TotalSeconds(c: Clock): nat
  {
    c.minutes * 60 + c.seconds
  }

  /**
   * `int(max(0, time_left))` split by `// 60` and `% 60`: negative time shows as zero and
   * a fraction of a second is cut off.
   */
  function ClockOf(timeLeft: real): (c: Clock)
    ensures c.seconds < 60
    ensures timeLeft <= 0.0 ==> TotalSeconds(c) == 0
    ensures timeLeft >= 0.0 ==> TotalSeconds(c) as real <= timeLeft < TotalSeconds(c) as real + 1.0
  {
    var total: nat := if timeLeft > 0.0 then timeLeft.Floor else 0;
    var c := Clock(total / 60, total % 60);
    assert TotalSeconds(c) == total;
    c
  }

  function DigitChar(d: nat): char
    requires d < 10
  {
    ('0' as int + d) as char
  }

  /** `f"{n:d}"`: decimal digits without leading zeros. */
  function Digits(n: nat): (s: string)
    ensures |s| >= 1
    decreases n
  {
    if n < 10 then [DigitChar(n)] else Digits(n / 10) + [DigitChar(n % 10)]
  }

  /** `f"{minutes:01d}:{seconds:02d}"`, the text of the clock in the score bar. */
  function ClockText(timeLeft: real): (r: string)
    ensures |r| >= 4 && r[|r| - 3] == ':'
    ensures '0' <= r[|r| - 2] <= '5' && '0' <= r[|r| - 1] <= '9'
    ensures ':' !in r[..|r| - 3]
  {
    var c := ClockOf(timeLeft);
    var m := Digits(c.minutes);
    var r := m + ":" + [DigitChar(c.seconds / 10), DigitChar(c.seconds % 10)];
    assert ':' !in r[..|r| - 3] by {
      DigitsRoundTrip(c.minutes);
      assert r[..|r| - 3] == m;
    }
    r
  }

  /** The value of a digit character. */
  function DigitValue(ch: char): Option<nat>
  {
    if '0' <= ch <= '9' then Some((ch - '0') as nat) else None
  }

  /** The value of a string of decimal digits. */
  function DecimalValue(s: string): Option<nat>
    decreases |s|
  {
    if |s| == 0 then Some(0)
    else match (DecimalValue(s[..|s| - 1]), DigitValue(s[|s| - 1]))
      case (Some(high), Some(low)) => Some(high * 10 + low)
      case _ => None
  }

  /** Reading a clock text back as seconds: minutes, a colon, then exactly two digits. */
  function ParseClock(s: string): Option<nat>
  {
    if |s| < 4 || s[|s| - 3] != ':' then None
    else match (DecimalValue(s[..|s| - 3]), DecimalValue(s[|s| - 2..]))
      case (Some(m), Some(sec)) => if sec < 60 then Some(m * 60 + sec) else None
      case _ => None
  }

  // ------------------------------------------------------------- keys

  /** The arrow keys held down: up wins over down, and neither means stop. */
  function KeyDirection(up: bool, down: bool): (d: int)
    ensures -1 <= d <= 1
    ensures d == -1 <==> up
    ensures d == 1 <==> !up && down
    ensures d == 0 <==> !up && !down
  {
    if up then -1 else if down then 1 else 0
  }

  // ------------------------------------------------------------- throttle

  /** Seconds after which the direction is sent again even if it has not changed. */
  const SendEvery: real := 0.10

  /** The direction last sent and the time it was sent. */
  datatype Sender = Sender(current: int, lastSend: real)

  /** `current_direction = 0` and `last_send = 0.0` before the first frame. */
  const InitialSender: Sender := Sender(0, 0.0)

  /** One frame: the sender afterwards and the direction sent, if any. */
  datatype Sent = Sent(sender: Sender, message: Option<int>)

  /** A direction is sent when it changes or when the last one is at least `SendEvery` old. */
  function Throttle(s: Sender, now: real, direction: int): (r: Sent)
    ensures r.message.Some? <==> direction != s.current || now - s.lastSend >= SendEvery
    ensures r.sender.current == direction
    ensures r.message.Some? ==> r.message.value == direction && r.sender.lastSend == now
    ensures r.message.None? ==> r.sender == s
  {
    if direction != s.current || now - s.lastSend >= SendEvery then
      Sent(Sender(direction, now), Some(direction))
    else
      Sent(s, None)
  }

  /** What one frame of the main loop observes: the time and the two arrow keys. */
  datatype KeyFrame = KeyFrame(now: real, up: bool, down: bool)

  /** The sender after a run of frames, with the message (or none) of each frame. */
  datatype Session = Session(sender: Sender, messages: seq<Option<int>>)

  function RunFrames(s: Sender, frames: seq<KeyFrame>): (r: Session)
    ensures |r.messages| == |frames|
    ensures forall k :: 0 <= k < |r.messages| && r.messages[k].Some? ==>
              r.messages[k].value == KeyDirection(frames[k].up, frames[k].down)
    ensures |frames| == 0 ==> r.sender == s
    ensures |frames| > 0 ==> r.sender.current == KeyDirection(frames[|frames| - 1].up, frames[|frames| - 1].down)
    decreases |frames|
  {
    if |frames| == 0 then Session(s, [])
    else
      var f := frames[|frames| - 1];
      var before := RunFrames(s, frames[..|frames| - 1]);
      var t := Throttle(before.sender, f.now, KeyDirection(f.up, f.down));
      Session(t.sender, before.messages + [t.message])
  }

  /** Frames in order of time, none before the last send. */
  ghost predicate InTimeOrder(s: Sender, frames: seq<KeyFrame>)
  {
    (forall i :: 0 <= i < |frames| ==> s.lastSend <= frames[i].now)
    && (forall i, j :: 0 <= i < j < |frames| ==> frames[i].now <= frames[j].now)
  }

  // ------------------------------------------------------------- proofs

  /** As the time counts down, the clock never goes up. */
  lemma ClockMonotone(earlier: real, later: real)
    requires later <= earlier
    ensures TotalSeconds(ClockOf(later)) <= TotalSeconds(ClockOf(earlier))
  {
    if later > 0.0 {
      assert later.Floor <= earlier.Floor;
    }
  }

  lemma {:induction false} DigitsRoundTrip(n: nat)
    ensures DecimalValue(Digits(n)) == Some(n)
    ensures ':' !in Digits(n)
    decreases n
  {
    var s := Digits(n);
    if n < 10 {
      assert s[..0] == "";
    } else {
      DigitsRoundTrip(n / 10);
      assert s[..|s| - 1] == Digits(n / 10);
    }
  }

  lemma TwoDigitsRoundTrip(sec: nat)
    requires sec < 60
    ensures DecimalValue([DigitChar(sec / 10), DigitChar(sec % 10)]) == Some(sec)
  {
    var s := [DigitChar(sec / 10), DigitChar(sec % 10)];
    assert DecimalValue(s[..1]) == Some(sec / 10) by {
      assert s[..1][..0] == "";
    }
    assert DigitValue(s[1]) == Some(sec % 10);
  }

  /** The clock text reads back as the whole seconds it shows. */
  lemma ClockTextRoundTrip(timeLeft: real)
    ensures ParseClock(ClockText(timeLeft)) == Some(TotalSeconds(ClockOf(timeLeft)))
  {
    var c := ClockOf(timeLeft);
    var m := Digits(c.minutes);
    var sec := [DigitChar(c.seconds / 10), DigitChar(c.seconds % 10)];
    var s := ClockText(timeLeft);
    assert s == m + ":" + sec;
    assert DecimalValue(s[..|s| - 3]) == Some(c.minutes) by {
      DigitsRoundTrip(c.minutes);
      assert s[..|s| - 3] == m;
    }
    assert DecimalValue(s[|s| - 2..]) == Some(c.seconds) by {
      TwoDigitsRoundTrip(c.seconds);
      assert s[|s| - 2..] == sec;
    }
    assert s[|s| - 3] == ':';
  }

  /** At the start of a match the clock shows three minutes. */
  lemma ClockAtKickOff()
    ensures ClockOf(TimeLimitSeconds as real) == Clock(3, 0)
    ensures ClockText(TimeLimitSeconds as real) == "3:00"
  {
    assert (180.0).Floor == 180;
  }

  /** Whatever keys are held, the server moves the paddle by at most one step, and only that way. */
  lemma KeysMovePaddleOneStep(y: int, up: bool, down: bool)
    requires PaddleInRange(y)
    ensures var y' := MovePaddle(y, KeyDirection(up, down));
            PaddleInRange(y') && y - PaddleSpeed <= y' <= y + PaddleSpeed
    ensures up ==> MovePaddle(y, KeyDirection(up, down)) <= y
    ensures !up && down ==> MovePaddle(y, KeyDirection(up, down)) >= y
    ensures !up && !down ==> MovePaddle(y, KeyDirection(up, down)) == y
  {
  }

  /** Right after each frame, the message last sent is younger than `SendEvery`. */
  lemma ThrottleKeepsFresh(s: Sender, now: real, direction: int)
    requires s.lastSend <= now
    ensures var r := Throttle(s, now, direction);
            0.0 <= now - r.sender.lastSend < SendEvery
  {
  }

  /**
   * Over a run of frames: the server is told of every change of direction in the frame it
   * happens, the last message sent is the direction held, and no frame passes more than
   * `SendEvery` after the last message.
   */
  lemma {:induction false} RunFramesReports(s: Sender, frames: seq<KeyFrame>)
    requires InTimeOrder(s, frames)
    ensures var r := RunFrames(s, frames);
            forall i :: 0 < i < |frames| && KeyDirection(frames[i].up, frames[i].down) != KeyDirection(frames[i - 1].up, frames[i - 1].down)
                        ==> r.messages[i] == Some(KeyDirection(frames[i].up, frames[i].down))
    ensures var r := RunFrames(s, frames);
            |frames| > 0 ==> r.sender.current == KeyDirection(frames[|frames| - 1].up, frames[|frames| - 1].down)
                             && 0.0 <= frames[|frames| - 1].now - r.sender.lastSend < SendEvery
    decreases |frames|
  {
    if |frames| > 0 {
      var init := frames[..|frames| - 1];
      var f := frames[|frames| - 1];
      var before := RunFrames(s, init);
      assert InTimeOrder(s, init);
      RunFramesReports(s, init);
      if |init| > 0 {
        assert init[|init| - 1].now <= f.now;
      }
      ThrottleKeepsFresh(before.sender, f.now, KeyDirection(f.up, f.down));
      assert forall i :: 0 <= i < |init| ==> frames[i] == init[i];
    }
  }
}
