/** The game stopwatch: a millisecond counter that advances by 10 on every
    tick while the game is playing, and its `mm:ss.cc` rendering. */
module Stopwatch {
  import opened Lang
  import opened Text

  const TickMillis := 10

  class GameStopwatch {
    var time: int

    /** `useState(0)`. */
    constructor()
      ensures time == 0 && Valid()
    {
      time := 0;
    }

    /** The time is a non-negative multiple of the tick. */
    ghost predicate Valid()
      reads this
    {
      time >= 0 && time % TickMillis == 0
    }

    /** One interval tick. While the status is "playing" the time grows by
        10 and the new time goes to the callback, if one is given; otherwise
        no interval runs and nothing changes. */
    method Tick(gameStatus: string, hasCallback: bool) returns (reported: Option<int>)
      modifies this
      ensures gameStatus == "playing" ==> time == old(time) + TickMillis
      ensures gameStatus != "playing" ==> time == old(time)
      ensures reported == if gameStatus == "playing" && hasCallback then Some(time) else None
      ensures old(Valid()) ==> Valid()
    {
      if gameStatus == "playing" {
        var newTime := time + TickMillis;
        reported := if hasCallback then Some(newTime) else None;
        time := newTime;
      } else {
        reported := None;
      }
    }

    /** A run of ticks under the statuses in `statuses`: the time grows by 10
        for each tick that saw "playing". */
    method Run(statuses: seq<string>, hasCallback: bool)
      modifies this
      ensures time == old(time) + TickMillis * PlayingTicks(statuses)
      ensures old(Valid()) ==> Valid()
    {
      var i := 0;
      while i < |statuses|
        invariant 0 <= i <= |statuses|
        invariant time == old(time) + TickMillis * PlayingTicks(statuses[..i])
        invariant old(Valid()) ==> Valid()
      {
        PlayingTicksSnoc(statuses[..i], statuses[i]);
        assert statuses[..i + 1] == statuses[..i] + [statuses[i]];
        var _ := Tick(statuses[i], hasCallback);
        i := i + 1;
      }
      assert statuses[..i] == statuses;
    }
  }

  /** How many of the ticks ran while playing. */
  function PlayingTicks(statuses: seq<string>): (n: nat)
    ensures n <= |statuses|
  {
    if statuses == [] then 0
    else (if statuses[0] == "playing" then 1 else 0) + PlayingTicks(statuses[1..])
  }

  lemma {:induction false} PlayingTicksSnoc(statuses: seq<string>, s: string)
    ensures PlayingTicks(statuses + [s]) == PlayingTicks(statuses) + if s == "playing" then 1 else 0
  {
    if statuses == [] {
      assert statuses + [s] == [s];
    } else {
      assert (statuses + [s])[1..] == statuses[1..] + [s];
      PlayingTicksSnoc(statuses[1..], s);
    }
  }

  /** Once the game is over the stopwatch is frozen. */
  lemma FrozenWhenOver(statuses: seq<string>)
    requires forall i :: 0 <= i < |statuses| ==> statuses[i] != "playing"
    ensures PlayingTicks(statuses) == 0
  {
    if statuses != [] {
      FrozenWhenOver(statuses[1..]);
    }
  }

  // ---------------------------------------------------------------------
  // The display

  /** `n.toString().padStart(2, '0')`. */
  function Pad2(n: nat): (r: string)
    ensures forall i :: 0 <= i < |r| ==> '0' <= r[i] <= '9'
    ensures |r| >= 2
  {
    var s := NatToString(n);
    if |s| >= 2 then s else "0" + s
  }

  function Minutes(time: nat): nat { time / 60000 }
  function Seconds(time: nat): nat { (time % 60000) / 1000 }
  function Centis(time: nat): nat { (time % 1000) / 10 }

  /** The template `${minutes}:${seconds}.${centis}` with two-character
      seconds and hundredths: each field sits at a fixed place. */
  function Display(minutes: string, seconds: string, centis: string): (r: string)
    requires |seconds| == 2 && |centis| == 2
    ensures |r| == |minutes| + 6
    ensures r[..|minutes|] == minutes && r[|minutes|] == ':'
    ensures r[|minutes| + 1..|minutes| + 3] == seconds && r[|minutes| + 3] == '.'
    ensures r[|minutes| + 4..] == centis
  {
    var r := minutes + ":" + seconds + "." + centis;
    assert r[..|minutes|] == minutes;
    assert r[|minutes| + 1..|minutes| + 3] == seconds;
    assert r[|minutes| + 4..] == centis;
    r
  }

  /** `formatTime(time)`: minutes, seconds and hundredths, each at least two
      digits, as `mm:ss.cc`. */
  function FormatTime(time: nat): (r: string)
    ensures |r| >= 8
    ensures r[|r| - 6] == ':' && r[|r| - 3] == '.'
  {
    FieldsInRange(time);
    Pad2Value(Seconds(time));
    Pad2Value(Centis(time));
    Display(Pad2(Minutes(time)), Pad2(Seconds(time)), Pad2(Centis(time)))
  }

  /** The fields are in range and give back the time, up to the sub-tick
      milliseconds the display drops. */
  lemma FieldsInRange(time: nat)
    ensures Seconds(time) < 60 && Centis(time) < 100
    ensures 60000 * Minutes(time) + 1000 * Seconds(time) + 10 * Centis(time) <= time
    ensures time < 60000 * Minutes(time) + 1000 * Seconds(time) + 10 * Centis(time) + 10
    ensures time % 10 == 0 ==> time == 60000 * Minutes(time) + 1000 * Seconds(time) + 10 * Centis(time)
  {
    assert time == 60000 * (time / 60000) + time % 60000;
    assert time % 60000 == 1000 * ((time % 60000) / 1000) + (time % 60000) % 1000;
    assert (time % 60000) % 1000 == time % 1000 by {
      var q := time / 60000;
      assert time % 60000 == time - 60000 * q;
      assert time - 60000 * q == 1000 * (time / 1000 - 60 * q) + time % 1000;
    }
    assert time % 1000 == 10 * (time % 1000 / 10) + time % 1000 % 10;
    assert time % 1000 % 10 == time % 10 by {
      assert time == 1000 * (time / 1000) + time % 1000;
      assert time % 1000 == 10 * (time % 1000 / 10) + time % 1000 % 10;
    }
  }

  lemma Pad2Value(n: nat)
    ensures DigitsValue(Pad2(n)) == n
    ensures n < 100 ==> |Pad2(n)| == 2
    ensures n >= 100 ==> Pad2(n) == NatToString(n)
  {
    NatToStringRoundTrip(n);
    NatToStringLength(n);
    var s := NatToString(n);
    if |s| < 2 {
      assert ("0" + s)[..1] == "0";
    }
    if n >= 10 {
      NatToStringLength(n / 10);
      if n < 100 {
        assert |NatToString(n / 10)| == 1;
      }
    }
  }

  /** Reading the display back gives the minutes, seconds and hundredths;
      minutes past 99 are printed in full. */
  lemma FormatTimeRoundTrip(time: nat)
    ensures var r := FormatTime(time);
      && DigitsValue(r[..|r| - 6]) == Minutes(time)
      && DigitsValue(r[|r| - 5..|r| - 3]) == Seconds(time)
      && DigitsValue(r[|r| - 2..]) == Centis(time)
      && (Minutes(time) < 100 ==> |r| == 8)
      && (Minutes(time) >= 100 ==> r[..|r| - 6] == NatToString(Minutes(time)))
  {
    FieldsInRange(time);
    Pad2Value(Minutes(time));
    Pad2Value(Seconds(time));
    Pad2Value(Centis(time));
  }
}
