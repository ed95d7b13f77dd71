/** `MiningMonitor._format_uptime`: seconds rendered as hours, minutes and
    seconds. */
module Uptime {

  import opened Wrappers
  import opened Text
  import opened Decimal

  /** Python's `int()` on a float: truncation toward zero. */
  function Trunc(x: real): (r: int)
    ensures x >= 0.0 ==> r >= 0 && r as real <= x < r as real + 1.0
    ensures x < 0.0 ==> r <= 0 && x <= r as real < x + 1.0
  {
    if x >= 0.0 then x.Floor else -((-x).Floor)
  }

  /** `divmod(t, 3600)` and then `divmod(remainder, 60)`. Python's `divmod`
      floors; with a positive divisor that is Dafny's `/` and `%`. */
  function Clock(t: int): (c: (int, int, int))
    ensures c.0 * 3600 + c.1 * 60 + c.2 == t
    ensures 0 <= c.1 < 60 && 0 <= c.2 < 60
    ensures t >= 0 ==> c.0 >= 0
  {
    (t / 3600, (t % 3600) / 60, (t % 3600) % 60)
  }

  lemma MulAwayFromZero(k: int, c: int)
    requires c > 0
    ensures k != 0 ==> k * c >= c || k * c <= -c
  {
    if k > 0 {
      assert k * c >= c;
    } else if k < 0 {
      assert k * c <= -c;
    }
  }

  /** The decomposition is the only one with minutes and seconds below 60. */
  lemma ClockUnique(t: int, h: int, m: int, s: int)
    requires h * 3600 + m * 60 + s == t && 0 <= m < 60 && 0 <= s < 60
    ensures Clock(t) == (h, m, s)
  {
    var (h', m', s') := Clock(t);
    var r, r' := m * 60 + s, m' * 60 + s';
    assert (h - h') * 3600 == r' - r;
    MulAwayFromZero(h - h', 3600);
    assert h == h';
    assert (m - m') * 60 == s' - s;
    MulAwayFromZero(m - m', 60);
  }

  /** `"{h}h {m}m {s}s"`, `"{m}m {s}s"` or `"{s}s"`, by whether hours, or
      else minutes, are positive. */
  function FormatUptime(seconds: real): (r: string)
    ensures r != [] && r[|r| - 1] == 's'
  {
    var c := Clock(Trunc(seconds));
    Render(c.0, c.1, c.2)
  }

  function Render(h: int, m: int, s: int): (r: string)
    ensures r != [] && r[|r| - 1] == 's'
  {
    if h > 0 then IntToString(h) + "h " + IntToString(m) + "m " + IntToString(s) + "s"
    else if m > 0 then IntToString(m) + "m " + IntToString(s) + "s"
    else IntToString(s) + "s"
  }

  /** One field of a rendered uptime: digits followed by the unit letter. */
  function ReadField(part: string, unit: char): Option<nat>
  {
    if part != [] && part[|part| - 1] == unit then ParseNat(part[..|part| - 1]) else None
  }

  /** Reads a rendered uptime back into whole seconds. */
  function ReadUptime(text: string): Option<int>
  {
    var ps := Split(text, ' ');
    if |ps| == 3 then
      match (ReadField(ps[0], 'h'), ReadField(ps[1], 'm'), ReadField(ps[2], 's'))
      case (Some(h), Some(m), Some(s)) => Some(h * 3600 + m * 60 + s)
      case _ => None
    else if |ps| == 2 then
      match (ReadField(ps[0], 'm'), ReadField(ps[1], 's'))
      case (Some(m), Some(s)) => Some(m * 60 + s)
      case _ => None
    else if |ps| == 1 then
      match ReadField(ps[0], 's')
      case Some(s) => Some(s)
      case None => None
    else
      None
  }

  lemma FieldOf(n: nat, unit: char)
    requires !IsDigit(unit) && unit != ' '
    ensures ' ' !in NatToString(n) + [unit]
    ensures ReadField(NatToString(n) + [unit], unit) == Some(n)
  {
    var d := NatToString(n);
    assert (d + [unit])[..|d|] == d;
    assert forall i :: 0 <= i < |d| ==> (d + [unit])[i] == d[i];
  }

  lemma JoinThree(a: string, b: string, c: string, sep: char)
    ensures Join([a, b, c], sep) == a + [sep] + (b + [sep] + c)
  {
    assert [a, b, c][1..] == [b, c] && [b, c][1..] == [c];
    assert Join([c], sep) == c;
    assert Join([b, c], sep) == b + [sep] + c;
  }

  lemma Spaced(a: string, b: string, c: string)
    ensures a + "h " + b + "m " + c + "s" == (a + "h") + [' '] + ((b + "m") + [' '] + (c + "s"))
  {
    assert "h " == "h" + [' '] && "m " == "m" + [' '];
  }

  lemma RenderHours(h: nat, m: nat, s: nat)
    requires h > 0
    ensures Render(h, m, s) == Join([NatToString(h) + "h", NatToString(m) + "m", NatToString(s) + "s"], ' ')
  {
    JoinThree(NatToString(h) + "h", NatToString(m) + "m", NatToString(s) + "s", ' ');
    Spaced(NatToString(h), NatToString(m), NatToString(s));
  }

  lemma SplitHours(h: nat, m: nat, s: nat)
    requires h > 0
    ensures Split(Render(h, m, s), ' ') == [NatToString(h) + "h", NatToString(m) + "m", NatToString(s) + "s"]
  {
    FieldOf(h, 'h');
    FieldOf(m, 'm');
    FieldOf(s, 's');
    RenderHours(h, m, s);
    SplitJoin([NatToString(h) + "h", NatToString(m) + "m", NatToString(s) + "s"], ' ');
  }

  lemma ReadHours(h: nat, m: nat, s: nat, t: int)
    requires h > 0 && t == h * 3600 + m * 60 + s
    ensures ReadUptime(Render(h, m, s)) == Some(t)
    ensures |Split(Render(h, m, s), ' ')| == 3
  {
    SplitHours(h, m, s);
    FieldOf(h, 'h');
    FieldOf(m, 'm');
    FieldOf(s, 's');
  }

  lemma ReadMinutes(m: nat, s: nat, t: int)
    requires m > 0 && t == m * 60 + s
    ensures ReadUptime(Render(0, m, s)) == Some(t)
    ensures |Split(Render(0, m, s), ' ')| == 2
  {
    var fm, fs := NatToString(m) + "m", NatToString(s) + "s";
    FieldOf(m, 'm');
    FieldOf(s, 's');
    assert [fm, fs][1..] == [fs];
    assert Render(0, m, s) == Join([fm, fs], ' ');
    SplitJoin([fm, fs], ' ');
  }

  lemma ReadSeconds(s: nat)
    ensures ReadUptime(Render(0, 0, s)) == Some(s)
    ensures |Split(Render(0, 0, s), ' ')| == 1
  {
    var fs := NatToString(s) + "s";
    FieldOf(s, 's');
    assert Render(0, 0, s) == Join([fs], ' ');
    SplitJoin([fs], ' ');
  }

  /** Reading a rendered clock gives back the whole seconds it was made
      from, and the number of fields says which of the three forms was
      chosen. */
  lemma ReadClock(t: int)
    requires t >= 0
    ensures var c := Clock(t);
      ReadUptime(Render(c.0, c.1, c.2)) == Some(t) &&
      |Split(Render(c.0, c.1, c.2), ' ')| == (if c.0 > 0 then 3 else if c.1 > 0 then 2 else 1)
  {
    var c := Clock(t);
    var h, m, s := c.0, c.1, c.2;
    assert h * 3600 + m * 60 + s == t && h >= 0 && m >= 0 && s >= 0;
    var text := Render(h, m, s);
    if h > 0 {
      ReadHours(h, m, s, t);
    } else if m > 0 {
      assert h == 0;
      ReadMinutes(m, s, t);
    } else {
      assert h == 0 && m == 0;
      ReadSeconds(s);
    }
  }

  /** `_format_uptime` read back: the whole seconds of a non-negative
      uptime, in as many fields as the largest non-zero unit needs. */
  lemma ReadFormatUptime(x: real)
    requires x >= 0.0
    ensures ReadUptime(FormatUptime(x)) == Some(Trunc(x))
    ensures var c := Clock(Trunc(x));
      |Split(FormatUptime(x), ' ')| == (if c.0 > 0 then 3 else if c.1 > 0 then 2 else 1)
  {
    ReadClock(Trunc(x));
  }
}
