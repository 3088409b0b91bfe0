/** `formatDuration(seconds)` from `main.js`: a count of seconds rendered as `H:MM:SS`,
    or as `M:SS` when it is shorter than one hour. */
module Duration {
  import opened Strings

  /** The three fields `formatDuration` computes before rendering. */
  datatype Clock = Clock(hours: nat, minutes: nat, secs: nat)

  /** `Math.floor(seconds / 3600)`, `Math.floor((seconds % 3600) / 60)` and
      `seconds % 60` for a non-negative integer: the decomposition into hours,
      minutes below 60 and seconds below 60. */
  function Decompose(seconds: nat): (c: Clock)
    ensures c.hours * 3600 + c.minutes * 60 + c.secs == seconds
    ensures c.minutes < 60 && c.secs < 60
  {
    Clock(seconds / 3600, (seconds % 3600) / 60, seconds % 60)
  }

  /** The decomposition is the only one with both fields below 60. */
  lemma DecomposeUnique(seconds: nat, c: Clock)
    requires c.hours * 3600 + c.minutes * 60 + c.secs == seconds
    requires c.minutes < 60 && c.secs < 60
    ensures c == Decompose(seconds)
  {
    var d := Decompose(seconds);
    var rest := c.minutes * 60 + c.secs;
    assert 0 <= rest < 3600;
    assert c.hours == seconds / 3600 && rest == seconds % 3600 by {
      assert seconds == c.hours * 3600 + rest;
    }
    assert c.minutes == rest / 60 && c.secs == rest % 60;
    assert c.secs == seconds % 60 by {
      assert seconds == (c.hours * 60 + c.minutes) * 60 + c.secs;
    }
  }

  /** The rendered text: hours unpadded, then minutes and seconds as two digits each;
      without an hours field the minutes are not padded. */
  function FormatDuration(seconds: nat): (text: string)
    ensures ParseDuration(text) == Some(seconds)
  {
    var c := Decompose(seconds);
    RenderRoundTrip(c);
    Render(c)
  }

  /** `H:MM:SS` has at least seven characters and `M:SS` at least four; both end in a
      colon followed by the two-digit seconds. */
  function Render(c: Clock): (text: string)
    requires c.minutes < 60 && c.secs < 60
    ensures |text| >= if c.hours > 0 then 7 else 4
    ensures text[|text| - 3..] == ":" + TwoDigits(c.secs)
  {
    var front := if c.hours > 0 then NatToString(c.hours) + ":" + TwoDigits(c.minutes)
                 else NatToString(c.minutes);
    LastField(front, TwoDigits(c.secs));
    front + ":" + TwoDigits(c.secs)
  }

  lemma LastField(front: string, field: string)
    requires |field| == 2
    ensures var text := front + ":" + field; text[|text| - 3..] == ":" + field
  {
    var text := front + ":" + field;
    assert text[|text| - 3..] == [':'] + field;
  }

  /** Reads `H:MM:SS` or `M:SS` back into seconds; `None` for anything that is not two
      or three runs of digits separated by colons. */
  function ParseDuration(text: string): Option<nat>
  {
    ReadFields(Split(text, ':'))
  }

  function ReadFields(f: seq<string>): Option<nat>
  {
    if |f| == 3 then
      match (ParseNat(f[0]), ParseNat(f[1]), ParseNat(f[2]))
      case (Some(h), Some(m), Some(s)) => Some(h * 3600 + m * 60 + s)
      case _ => None
    else if |f| == 2 then
      match (ParseNat(f[0]), ParseNat(f[1]))
      case (Some(m), Some(s)) => Some(m * 60 + s)
      case _ => None
    else None
  }

  /** The pieces of `a:b` and `a:b:c` when no piece holds a colon. */
  lemma SplitFields(a: string, b: string, c: string)
    requires ':' !in a && ':' !in b && ':' !in c
    ensures Split(a + ":" + b, ':') == [a, b]
    ensures Split(a + ":" + b + ":" + c, ':') == [a, b, c]
  {
    SplitNoSeparator(b, ':');
    SplitNoSeparator(c, ':');
    SplitAtFirst(a, ':', b);
    assert a + ":" + b == a + [':'] + b;
    SplitAtFirst(b, ':', c);
    assert b + ":" + c == b + [':'] + c;
    assert a + ":" + b + ":" + c == a + [':'] + (b + [':'] + c);
    SplitAtFirst(a, ':', b + [':'] + c);
  }

  lemma DigitsHaveNoColon(s: string)
    requires AllDigits(s)
    ensures ':' !in s
  {
  }

  /** The fields of a rendering with hours. */
  lemma RenderWithHours(c: Clock)
    requires c.hours > 0 && c.minutes < 60 && c.secs < 60
    ensures Split(Render(c), ':') == [NatToString(c.hours), TwoDigits(c.minutes), TwoDigits(c.secs)]
  {
    var h, m, s := NatToString(c.hours), TwoDigits(c.minutes), TwoDigits(c.secs);
    DigitsHaveNoColon(h);
    DigitsHaveNoColon(m);
    DigitsHaveNoColon(s);
    SplitFields(h, m, s);
  }

  /** The fields of a rendering without hours. */
  lemma RenderWithoutHours(c: Clock)
    requires c.hours == 0 && c.minutes < 60 && c.secs < 60
    ensures Split(Render(c), ':') == [NatToString(c.minutes), TwoDigits(c.secs)]
  {
    var m, s := NatToString(c.minutes), TwoDigits(c.secs);
    DigitsHaveNoColon(m);
    DigitsHaveNoColon(s);
    SplitFields(m, s, s);
  }

  /** Shape of the output: three colon-separated fields exactly when the duration is
      at least one hour, otherwise two; the last field, and the minutes field when hours
      are shown, are exactly two digits; the first field is the unpadded decimal count of
      hours, or of all the minutes when there is no hours field; the fields read back as
      hours, minutes and seconds. */
  lemma FormatDurationShape(seconds: nat)
    ensures var f := Split(FormatDuration(seconds), ':');
      && |f| == (if seconds >= 3600 then 3 else 2)
      && |f[|f| - 1]| == 2
      && ParseNat(f[|f| - 1]) == Some(seconds % 60)
      && (seconds >= 3600 ==>
            |f[1]| == 2 && f[0] == NatToString(seconds / 3600) && f[0][0] != '0'
            && ParseNat(f[0]) == Some(seconds / 3600)
            && ParseNat(f[1]) == Some(seconds % 3600 / 60))
      && (seconds < 3600 ==> f[0] == NatToString(seconds / 60) && ParseNat(f[0]) == Some(seconds / 60))
  {
    var c := Decompose(seconds);
    assert c == Clock(seconds / 3600, (seconds % 3600) / 60, seconds % 60);
    if seconds >= 3600 {
      assert c.hours > 0;
      RenderWithHours(c);
      ParseNatToString(c.hours);
    } else {
      assert c.hours == 0 && seconds % 3600 == seconds;
      RenderWithoutHours(c);
      ParseNatToString(c.minutes);
    }
  }

  /** Parsing a rendering gives back the seconds its fields add up to. */
  lemma RenderRoundTrip(c: Clock)
    requires c.minutes < 60 && c.secs < 60
    ensures ParseDuration(Render(c)) == Some(c.hours * 3600 + c.minutes * 60 + c.secs)
  {
    if c.hours > 0 {
      RenderWithHours(c);
      ParseNatToString(c.hours);
      ReadThreeFields(NatToString(c.hours), TwoDigits(c.minutes), TwoDigits(c.secs), c.hours, c.minutes, c.secs);
    } else {
      RenderWithoutHours(c);
      ParseNatToString(c.minutes);
      ReadTwoFields(NatToString(c.minutes), TwoDigits(c.secs), c.minutes, c.secs);
    }
  }

  lemma ReadThreeFields(a: string, b: string, d: string, h: nat, m: nat, s: nat)
    requires ParseNat(a) == Some(h) && ParseNat(b) == Some(m) && ParseNat(d) == Some(s)
    ensures ReadFields([a, b, d]) == Some(h * 3600 + m * 60 + s)
  {
  }

  lemma ReadTwoFields(a: string, b: string, m: nat, s: nat)
    requires ParseNat(a) == Some(m) && ParseNat(b) == Some(s)
    ensures ReadFields([a, b]) == Some(m * 60 + s)
  {
  }

  /** Different durations never render alike. */
  lemma FormatDurationInjective(a: nat, b: nat)
    requires FormatDuration(a) == FormatDuration(b)
    ensures a == b
  {
  }
}
