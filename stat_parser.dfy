/** What one line of XMRig output does to the monitor's statistics
    (`MiningMonitor._parse_xmrig_line`), as pure functions over the line,
    and the effect of a whole sequence of lines. */
module StatParser {

  import opened Wrappers
  import opened Text
  import opened Decimal

  /** The monitor's statistics record: latest hashrate and the last reported
      share totals. */
  datatype Stats = Stats(hashrate: real, accepted: nat, rejected: nat)

  const InitialStats: Stats := Stats(0.0, 0, 0)

  const Unit: string := "h/s"

  predicate IsScaleSuffix(c: char) {
    c == 'k' || c == 'm' || c == 'g'
  }

  function Multiplier(c: char): nat {
    if c == 'k' then 1000
    else if c == 'm' then 1000000
    else if c == 'g' then 1000000000
    else 1
  }

  /** The hashrate read from the token in front of the unit token: one
      trailing `k`, `m` or `g` is cut off and scales the number. */
  function RateValue(tok: string): (r: Option<real>)
    ensures r.Some? ==> tok != []
  {
    if tok == [] then None
    else
      var last := tok[|tok| - 1];
      if IsScaleSuffix(last) then
        match ParseFloat(tok[..|tok| - 1])
        case None => None
        case Some(v) => Some(v * Multiplier(last) as real)
      else
        ParseFloat(tok)
  }

  /** The new hashrate a line carries, or `None` when the line leaves the
      hashrate as it was. */
  function HashrateOf(line: string): (r: Option<real>)
    ensures r.Some? ==> Contains(Lower(line), Unit)
  {
    var l := Lower(line);
    if !(Contains(l, "speed") || Contains(l, Unit) || Contains(l, "hashrate")) then None
    else if !Contains(l, Unit) then None
    else
      var parts := Words(l);
      match FirstContaining(parts, Unit)
      case None => None
      case Some(i) => if i > 0 then RateValue(parts[i - 1]) else None
  }

  /** Drops leading whitespace (what a greedy `\s*` takes). */
  function SkipSpaces(s: string): string
  {
    if s != [] && IsSpace(s[0]) then SkipSpaces(s[1..]) else s
  }

  /** The regular expression `accepted\s*\((\d+)/(\d+)\)` matched at the
      start of `s`, giving its two groups as integers. Each repetition is
      followed by a character it cannot take, so the greedy match is the
      only one and no backtracking is needed. */
  function ShareMatch(s: string): (r: Option<(nat, nat)>)
    ensures r.Some? ==> "accepted" <= s
  {
    if "accepted" <= s then OpenParen(SkipSpaces(s[8..])) else None
  }

  /** `\((\d+)/(\d+)\)` at the start of `t`. */
  function OpenParen(t: string): Option<(nat, nat)>
  {
    if t != [] && t[0] == '(' then AcceptedGroup(t[1..]) else None
  }

  /** `(\d+)/(\d+)\)` at the start of `t`. */
  function AcceptedGroup(t: string): Option<(nat, nat)>
  {
    var a := LeadingDigits(t);
    var u := t[|a|..];
    if a != [] && u != [] && u[0] == '/' then RejectedGroup(DigitsValue(a), u[1..]) else None
  }

  /** `(\d+)\)` at the start of `u`, after the first group read `accepted`. */
  function RejectedGroup(accepted: nat, u: string): Option<(nat, nat)>
  {
    var b := LeadingDigits(u);
    var v := u[|b|..];
    if b != [] && v != [] && v[0] == ')' then Some((accepted, DigitsValue(b))) else None
  }

  /** `re.search`: the match at the leftmost position where there is one. */
  function FirstShareMatch(s: string): (r: Option<(nat, nat)>)
    ensures r.Some? ==> Contains(s, "accepted")
    ensures r.Some? ==> exists i :: 0 <= i <= |s| && ShareMatch(s[i..]) == r
                                 && forall j :: 0 <= j < i ==> ShareMatch(s[j..]).None?
    ensures r.None? <==> forall i :: 0 <= i <= |s| ==> ShareMatch(s[i..]).None?
    decreases |s|
  {
    assert s[0..] == s;
    match ShareMatch(s)
    case Some(p) => Some(p)
    case None =>
      if s == [] then None
      else
        assert forall i :: 1 <= i <= |s| ==> s[1..][i - 1..] == s[i..];
        FirstShareMatch(s[1..])
  }

  /** The share totals a line carries, or `None` when it leaves the counters
      as they were. */
  function SharesOf(line: string): (r: Option<(nat, nat)>)
    ensures r.Some? ==> Contains(Lower(line), "accepted") && Contains(Lower(line), "share")
    ensures r.Some? ==> r == FirstShareMatch(Lower(line))
  {
    var l := Lower(line);
    if Contains(l, "accepted") && (Contains(l, "share") || Contains(l, "shares")) then
      if Contains(l, "shares") then
        assert "share" + "s" == "shares";
        ContainsPrefix(l, "share", "s");
        FirstShareMatch(l)
      else
        FirstShareMatch(l)
    else
      None
  }

  /** The statistics after one line. */
  function Step(s: Stats, line: string): (r: Stats)
    ensures HashrateOf(line).None? ==> r.hashrate == s.hashrate
    ensures SharesOf(line).None? ==> r.accepted == s.accepted && r.rejected == s.rejected
  {
    var h := match HashrateOf(line) case Some(v) => v case None => s.hashrate;
    match SharesOf(line)
    case Some(p) => Stats(h, p.0, p.1)
    case None => Stats(h, s.accepted, s.rejected)
  }

  /** The statistics after a sequence of lines, fed in order. */
  function Feed(s: Stats, lines: seq<string>): (r: Stats)
    ensures (forall k :: 0 <= k < |lines| ==> HashrateOf(lines[k]).None?) ==> r.hashrate == s.hashrate
    ensures (forall k :: 0 <= k < |lines| ==> SharesOf(lines[k]).None?) ==>
      r.accepted == s.accepted && r.rejected == s.rejected
    decreases |lines|
  {
    if lines == [] then s else Step(Feed(s, lines[..|lines| - 1]), lines[|lines| - 1])
  }

  // ---------------------------------------------------------------------
  // The scale suffix

  predicate IsNumeralChar(c: char) {
    IsDigit(c) || c == '.' || c == '+' || c == '-'
  }

  /** A numeral followed by `k`, `m` or `g` reads as the numeral times
      1000, 10^6 or 10^9. */
  lemma RateOfScaled(num: string, v: real, c: char)
    requires ParseFloat(num) == Some(v) && IsScaleSuffix(c)
    ensures RateValue(num + [c]) == Some(v * Multiplier(c) as real)
  {
    var tok := num + [c];
    assert tok[..|tok| - 1] == num;
  }

  /** A numeral without a suffix reads as itself: the multiplier is 1. */
  lemma RateOfPlain(num: string, v: real)
    requires ParseFloat(num) == Some(v)
    ensures RateValue(num) == Some(v)
  {
  }

  lemma {:induction false} ContainsHead(s: string, p: string)
    requires p != [] && Contains(s, p)
    ensures p[0] in s
    decreases |s|
  {
    if !(p <= s) {
      ContainsHead(s[1..], p);
    }
  }

  lemma IsLowerAppend(a: string, b: string)
    requires IsLower(a) && IsLower(b)
    ensures IsLower(a + b)
  {
  }

  /** Two tokens joined by a space split back into the two tokens. */
  lemma WordsOfPair(tok: string, unit: string)
    requires tok != [] && NoSpace(tok) && unit != [] && NoSpace(unit)
    ensures Words(tok + " " + unit) == [tok, unit]
  {
    WordsAppend(tok, unit);
    WordsOfWord(tok);
    WordsOfWord(unit);
  }

  /** A line made of a value token, a space and a unit token reads the
      value token. */
  lemma HashrateOfPair(tok: string, unit: string)
    requires tok != [] && NoSpace(tok) && IsLower(tok) && 'h' !in tok
    requires unit != [] && NoSpace(unit) && IsLower(unit) && Contains(unit, Unit)
    ensures HashrateOf(tok + " " + unit) == RateValue(tok)
  {
    var line := tok + " " + unit;
    IsLowerAppend(tok, " ");
    IsLowerAppend(tok + " ", unit);
    LowerOfLower(line);
    ContainsAfter(tok + " ", unit, Unit);
    WordsOfPair(tok, unit);
    if Contains(tok, Unit) {
      ContainsHead(tok, Unit);
    }
    assert FirstContaining(Words(line), Unit) == Some(1);
  }

  /** A token of numeral characters and scale letters: no whitespace, no
      capitals, and no `h`, so it cannot hold the unit. */
  lemma RateTokenShape(tok: string)
    requires forall i :: 0 <= i < |tok| ==> IsNumeralChar(tok[i]) || IsScaleSuffix(tok[i])
    ensures NoSpace(tok) && IsLower(tok) && 'h' !in tok
  {
  }

  /** A token `float()` accepts is made of digits, a point and a sign. */
  lemma NumeralShape(num: string, v: real)
    requires ParseFloat(num) == Some(v)
    ensures forall i :: 0 <= i < |num| ==> IsNumeralChar(num[i])
  {
  }

  /** `"2.5k h/s"` reads as 2500: the suffix in front of the unit token
      scales the value. */
  lemma ScaledRateLine(num: string, v: real, c: char)
    requires ParseFloat(num) == Some(v) && IsScaleSuffix(c)
    ensures HashrateOf(num + [c] + " " + Unit) == Some(v * Multiplier(c) as real)
  {
    NumeralShape(num, v);
    var tok := num + [c];
    assert forall i :: 0 <= i < |tok| ==> IsNumeralChar(tok[i]) || tok[i] == c;
    RateTokenShape(tok);
    HashrateOfPair(tok, Unit);
    RateOfScaled(num, v, c);
  }

  /** `"2.5 kh/s"` reads as 2.5: a scale letter inside the unit token is not
      applied, because the suffix is looked for on the token before it. */
  lemma UnitPrefixIgnored(num: string, v: real, c: char)
    requires ParseFloat(num) == Some(v) && IsScaleSuffix(c)
    ensures HashrateOf(num + " " + [c] + Unit) == Some(v)
  {
    NumeralShape(num, v);
    RateTokenShape(num);
    var unit := [c] + Unit;
    assert unit[1..] == Unit;
    assert Contains(unit, Unit);
    assert num + " " + [c] + Unit == num + " " + unit;
    HashrateOfPair(num, unit);
  }

  /** The same inside a longer line: after leading words that hold no unit
      token, `<num> <c>h/s` reads as `num`, whatever follows. The line
      `speed 10s/60s/15m 2.5 kH/s max 3.1 kH/s` has this shape, with
      `pre` = `speed 10s/60s/15m`, and so reads as 2.5. */
  lemma UnitPrefixInLine(line: string, pre: string, num: string, v: real, c: char, rest: string)
    requires ParseFloat(num) == Some(v) && IsScaleSuffix(c)
    requires forall k :: 0 <= k < |Words(pre)| ==> !Contains(Words(pre)[k], Unit)
    requires Lower(line) == pre + " " + num + " " + ([c] + Unit) + " " + rest
    ensures HashrateOf(line) == Some(v)
  {
    var unit := [c] + Unit;
    NumeralToken(num, v);
    assert unit[1..] == Unit;
    assert Contains(unit, Unit);
    LineWords(pre, num, unit, rest);
    LineHoldsUnit(pre, num, unit, rest);
    FirstUnitAfter(Words(pre), num, unit, Words(rest));
    RateOfPlain(num, v);
  }

  /** A numeral `float()` accepts is one word and holds no unit. */
  lemma NumeralToken(num: string, v: real)
    requires ParseFloat(num) == Some(v)
    ensures num != [] && NoSpace(num) && !Contains(num, Unit)
  {
    NumeralShape(num, v);
    RateTokenShape(num);
    if Contains(num, Unit) {
      ContainsHead(num, Unit);
    }
  }

  /** The first word holding the unit is the one after `num`. */
  lemma FirstUnitAfter(pw: seq<string>, num: string, unit: string, rw: seq<string>)
    requires forall k :: 0 <= k < |pw| ==> !Contains(pw[k], Unit)
    requires !Contains(num, Unit) && Contains(unit, Unit)
    ensures FirstContaining(pw + [num, unit] + rw, Unit) == Some(|pw| + 1)
  {
    var ws := pw + [num, unit] + rw;
    assert ws[|pw|] == num && ws[|pw| + 1] == unit;
    assert forall k :: 0 <= k < |pw| ==> ws[k] == pw[k];
  }

  /** The words of a line with two single words between `pre` and `rest`. */
  lemma LineWords(pre: string, num: string, unit: string, rest: string)
    requires num != [] && NoSpace(num) && unit != [] && NoSpace(unit)
    ensures Words(pre + " " + num + " " + unit + " " + rest) == Words(pre) + [num, unit] + Words(rest)
  {
    var tail := num + " " + (unit + " " + rest);
    assert pre + " " + num + " " + unit + " " + rest == pre + " " + tail;
    WordsAppend(pre, tail);
    WordsAppend(num, unit + " " + rest);
    WordsAppend(unit, rest);
    WordsOfWord(num);
    WordsOfWord(unit);
  }

  lemma LineHoldsUnit(pre: string, num: string, unit: string, rest: string)
    requires Contains(unit, Unit)
    ensures Contains(pre + " " + num + " " + unit + " " + rest, Unit)
  {
    ContainsBefore(unit, " " + rest, Unit);
    assert unit + (" " + rest) == unit + " " + rest;
    ContainsAfter(pre + " " + num + " ", unit + " " + rest, Unit);
    assert pre + " " + num + " " + unit + " " + rest == (pre + " " + num + " ") + (unit + " " + rest);
  }

  // ---------------------------------------------------------------------
  // Only the first unit token counts

  /** Whatever follows a line that already holds a unit token does not
      change the hashrate it reads. */
  lemma HashrateIgnoresLaterText(line: string, rest: string)
    requires Contains(Lower(line), Unit)
    ensures HashrateOf(line + " " + rest) == HashrateOf(line)
  {
    var l := Lower(line);
    LowerSpaced(line, rest);
    var l' := Lower(line + " " + rest);
    ContainsBefore(l, " " + Lower(rest), Unit);
    WordsAppend(l, Lower(rest));
    WordsContain(l, Unit);
    var ws := Words(l);
    var ws' := Words(l');
    assert ws' == ws + Words(Lower(rest));
    FirstContainingPrefix(ws, Words(Lower(rest)), Unit);
  }

  lemma LowerSpaced(line: string, rest: string)
    ensures Lower(line + " " + rest) == Lower(line) + " " + Lower(rest)
    ensures Lower(line) + " " + Lower(rest) == Lower(line) + (" " + Lower(rest))
  {
    LowerAppend(line, " ");
    LowerAppend(line + " ", rest);
    assert Lower(" ") == " ";
  }

  lemma FirstContainingPrefix(ws: seq<string>, more: seq<string>, p: string)
    requires FirstContaining(ws, p).Some?
    ensures FirstContaining(ws + more, p) == FirstContaining(ws, p)
  {
    var i := FirstContaining(ws, p).value;
    assert forall j :: 0 <= j < |ws| ==> (ws + more)[j] == ws[j];
  }

  lemma LowerKeepsNoSpace(w: string)
    requires NoSpace(w)
    ensures NoSpace(Lower(w))
  {
  }

  /** A line whose first token is the unit token has no value to read. */
  lemma UnitFirstLeavesHashrate(w: string, rest: string)
    requires w != [] && NoSpace(w) && Contains(Lower(w), Unit)
    ensures HashrateOf(w + " " + rest) == None
  {
    LowerAppend(w, " ");
    LowerAppend(w + " ", rest);
    assert Lower(" ") == " ";
    var l := Lower(w) + " " + Lower(rest);
    assert Lower(w + " " + rest) == l;
    LowerKeepsNoSpace(w);
    WordsAppend(Lower(w), Lower(rest));
    WordsOfWord(Lower(w));
    ContainsBefore(Lower(w), " " + Lower(rest), Unit);
    assert Lower(w) + " " + Lower(rest) == Lower(w) + (" " + Lower(rest));
    assert Words(l)[0] == Lower(w);
    assert FirstContaining(Words(l), Unit) == Some(0);
  }

  // ---------------------------------------------------------------------
  // Share totals

  predicate AllSpace(s: string) {
    forall i :: 0 <= i < |s| ==> IsSpace(s[i])
  }

  lemma {:induction false} SkipSpacesOf(gap: string, rest: string)
    requires AllSpace(gap) && rest != [] && !IsSpace(rest[0])
    ensures SkipSpaces(gap + rest) == rest
    decreases |gap|
  {
    if gap == [] {
      assert gap + rest == rest;
    } else {
      assert (gap + rest)[1..] == gap[1..] + rest;
      SkipSpacesOf(gap[1..], rest);
    }
  }

  lemma RejectedGroupSplit(a: nat, sb: string, post: string)
    requires sb != [] && AllDigits(sb)
    ensures RejectedGroup(a, sb + (")" + post)) == Some((a, DigitsValue(sb)))
  {
    LeadingDigitsOf(sb, ")" + post);
    assert (sb + (")" + post))[|sb|..] == ")" + post;
  }

  lemma AcceptedGroupSplit(sa: string, tail: string)
    requires sa != [] && AllDigits(sa)
    ensures AcceptedGroup(sa + ("/" + tail)) == RejectedGroup(DigitsValue(sa), tail)
  {
    LeadingDigitsOf(sa, "/" + tail);
    assert (sa + ("/" + tail))[|sa|..] == "/" + tail;
    assert ("/" + tail)[1..] == tail;
  }

  lemma AcceptedGroupOf(a: nat, r: nat, post: string)
    ensures AcceptedGroup(NatToString(a) + "/" + NatToString(r) + ")" + post) == Some((a, r))
  {
    var sa, sr := NatToString(a), NatToString(r);
    assert sa + "/" + sr + ")" + post == sa + ("/" + (sr + (")" + post)));
    RejectedGroupSplit(a, sr, post);
    AcceptedGroupSplit(sa, sr + (")" + post));
  }

  /** The text XMRig writes for share totals A and R: `accepted (A/R)`,
      with `gap` the whitespace before the parenthesis. */
  function Report(gap: string, a: nat, r: nat): string
  {
    "accepted" + gap + "(" + NatToString(a) + "/" + NatToString(r) + ")"
  }

  /** A report reads back as the totals A and R, with any whitespace between
      the keyword and the parenthesis and whatever follows it. */
  lemma ShareMatchOfReport(gap: string, a: nat, r: nat, post: string)
    requires AllSpace(gap)
    ensures ShareMatch(Report(gap, a, r) + post) == Some((a, r))
  {
    var groups := NatToString(a) + "/" + NatToString(r) + ")" + post;
    var s := Report(gap, a, r) + post;
    assert s == "accepted" + (gap + ("(" + groups));
    assert s[8..] == gap + ("(" + groups);
    SkipSpacesOf(gap, "(" + groups);
    assert ("(" + groups)[1..] == groups;
    AcceptedGroupOf(a, r, post);
  }

  lemma ReportIsLower(gap: string, a: nat, r: nat)
    requires AllSpace(gap)
    ensures IsLower(Report(gap, a, r))
  {
  }

  /** Text without the keyword holds no match, and no match can start in
      it and run on into text that begins with the keyword's `a`: no later
      letter of "accepted" is an `a`. */
  lemma {:induction false} FirstShareMatchSkip(pre: string, x: string)
    requires !Contains(pre, "accepted")
    requires x != [] && x[0] == 'a'
    ensures FirstShareMatch(pre + x) == FirstShareMatch(x)
    decreases |pre|
  {
    if pre == [] {
      assert pre + x == x;
    } else {
      var s := pre + x;
      if |pre| >= 8 {
        assert s[..8] == pre[..8];
        assert "accepted" <= pre ==> Contains(pre, "accepted");
      } else {
        assert s[|pre|] == 'a';
        assert "accepted"[|pre|] != 'a';
      }
      assert !("accepted" <= s);
      assert s[1..] == pre[1..] + x;
      FirstShareMatchSkip(pre[1..], x);
    }
  }

  /** No match of the pattern starts inside text without the keyword when
      what follows begins with the keyword's `a`. */
  lemma NoMatchInside(pre: string, x: string, j: int)
    requires !Contains(pre, "accepted")
    requires x != [] && x[0] == 'a' && 0 <= j < |pre|
    ensures ShareMatch((pre + x)[j..]).None?
  {
    if j + 8 <= |pre| {
      KeywordNotAt(pre, x, j);
    } else {
      KeywordNotAcross((pre + x)[j..], |pre| - j);
    }
    NoKeywordNoMatch((pre + x)[j..]);
  }

  lemma NoKeywordNoMatch(t: string)
    requires !("accepted" <= t)
    ensures ShareMatch(t).None?
  {
  }

  lemma KeywordNotAt(pre: string, x: string, j: int)
    requires !Contains(pre, "accepted")
    requires 0 <= j && j + 8 <= |pre|
    ensures !("accepted" <= (pre + x)[j..])
  {
    var t := (pre + x)[j..];
    if "accepted" <= t {
      assert t[..8] == pre[j..][..8];
      assert "accepted" <= pre[j..];
      assert pre == pre[..j] + pre[j..];
      ContainsAfter(pre[..j], pre[j..], "accepted");
    }
  }

  /** The keyword's only `a` is its first letter. */
  lemma KeywordNotAcross(t: string, k: int)
    requires 0 < k < 8 && k < |t| && t[k] == 'a'
    ensures !("accepted" <= t)
  {
    assert "accepted"[k] != 'a';
  }

  /** A line in any case that reports totals A and R and mentions shares
      anywhere sets the counters to A and R, as long as no match of the
      pattern starts earlier: `pre`, the report and `post` are the
      lower-cased line. */
  lemma SharesOfReport(line: string, pre: string, gap: string, a: nat, r: nat, post: string)
    requires AllSpace(gap) && Lower(line) == pre + Report(gap, a, r) + post
    requires forall j :: 0 <= j < |pre| ==> ShareMatch(Lower(line)[j..]).None?
    requires Contains(Lower(line), "share")
    ensures SharesOf(line) == Some((a, r))
  {
    var l := Lower(line);
    assert l[|pre|..] == Report(gap, a, r) + post;
    ShareMatchOfReport(gap, a, r, post);
    var m := FirstShareMatch(l);
    assert m.Some?;
    var i :| 0 <= i <= |l| && ShareMatch(l[i..]) == m && forall j :: 0 <= j < i ==> ShareMatch(l[j..]).None?;
    assert i == |pre|;
  }

  /** In particular when the text before the report does not hold the
      keyword at all. */
  lemma SharesOfFirstReport(line: string, pre: string, gap: string, a: nat, r: nat, post: string)
    requires AllSpace(gap) && Lower(line) == pre + Report(gap, a, r) + post
    requires !Contains(pre, "accepted")
    requires Contains(Lower(line), "share")
    ensures SharesOf(line) == Some((a, r))
  {
    var body := Report(gap, a, r) + post;
    assert "accepted" <= Report(gap, a, r);
    NoMatchBefore(Lower(line), pre, body);
    SharesOfReport(line, pre, gap, a, r, post);
  }

  lemma NoMatchBefore(l: string, pre: string, x: string)
    requires !Contains(pre, "accepted")
    requires x != [] && x[0] == 'a' && l == pre + x
    ensures forall j :: 0 <= j < |pre| ==> ShareMatch(l[j..]).None?
  {
    forall j | 0 <= j < |pre|
      ensures ShareMatch(l[j..]).None?
    {
      NoMatchInside(pre, x, j);
    }
  }

  lemma NotInConcat(a: string, b: string, c: char)
    requires c !in a && c !in b
    ensures c !in a + b
  {
  }

  /** The report `accepted (A/R)` holds no letter `s`. */
  lemma ReportLacksS(a: nat, r: nat)
    ensures 's' !in Report(" ", a, r)
  {
  }

  /** The line `[2024-01-01] accepted (A/R) diff 5000`. */
  function ReportWithoutShareWord(a: nat, r: nat): string {
    DatePrefix + (Report(" ", a, r) + " diff 5000")
  }

  lemma ReportWithoutShareWordIsLower(a: nat, r: nat)
    ensures Lower(ReportWithoutShareWord(a, r)) == ReportWithoutShareWord(a, r)
  {
    ReportIsLower(" ", a, r);
    IsLowerAppend(Report(" ", a, r), " diff 5000");
    IsLowerAppend(DatePrefix, Report(" ", a, r) + " diff 5000");
    LowerOfLower(ReportWithoutShareWord(a, r));
  }

  const DatePrefix: string := "[2024-01-01] "

  lemma DatePrefixShape()
    ensures !Contains(DatePrefix, "accepted") && DatePrefix[|DatePrefix| - 1] == ' '
  {
    MissingCharExcludes(DatePrefix, "accepted", 'a');
  }

  lemma ReportWithoutShareWordMatches(a: nat, r: nat)
    ensures FirstShareMatch(ReportWithoutShareWord(a, r)) == Some((a, r))
  {
    var body := Report(" ", a, r) + " diff 5000";
    DatePrefixShape();
    FirstShareMatchSkip(DatePrefix, body);
    ShareMatchOfReport(" ", a, r, " diff 5000");
    assert FirstShareMatch(body) == Some((a, r));
  }

  lemma ReportWithoutShareWordLacksS(a: nat, r: nat)
    ensures 's' !in ReportWithoutShareWord(a, r)
  {
    ReportLacksS(a, r);
    NotInConcat(Report(" ", a, r), " diff 5000", 's');
    NotInConcat(DatePrefix, Report(" ", a, r) + " diff 5000", 's');
  }

  /** A report line without the word "share" leaves the counters alone,
      although the pattern itself reads it: for
      `[2024-01-01] accepted (120/3) diff 5000`, or any other totals, the
      first match gives the two totals, yet the share guard is false. */
  lemma ShareWordRequired(a: nat, r: nat)
    ensures FirstShareMatch(Lower(ReportWithoutShareWord(a, r))) == Some((a, r))
    ensures SharesOf(ReportWithoutShareWord(a, r)) == None
  {
    var line := ReportWithoutShareWord(a, r);
    ReportWithoutShareWordIsLower(a, r);
    ReportWithoutShareWordMatches(a, r);
    ReportWithoutShareWordLacksS(a, r);
    MissingCharExcludes(line, "share", 's');
    MissingCharExcludes(line, "shares", 's');
  }

  // ---------------------------------------------------------------------
  // Feeding lines: the latest report wins

  /** The totals of the last line in `lines` that reports any. */
  function LatestShares(lines: seq<string>): Option<(nat, nat)>
  {
    if lines == [] then None
    else match LatestShares(lines[1..])
      case Some(p) => Some(p)
      case None => SharesOf(lines[0])
  }

  /** The hashrate of the last line in `lines` that carries one. */
  function LatestHashrate(lines: seq<string>): Option<real>
  {
    if lines == [] then None
    else match LatestHashrate(lines[1..])
      case Some(v) => Some(v)
      case None => HashrateOf(lines[0])
  }

  lemma {:induction false} LatestSnoc(lines: seq<string>, x: string)
    ensures LatestShares(lines + [x]) == (if SharesOf(x).Some? then SharesOf(x) else LatestShares(lines))
    ensures LatestHashrate(lines + [x]) == (if HashrateOf(x).Some? then HashrateOf(x) else LatestHashrate(lines))
    decreases |lines|
  {
    if lines == [] {
      assert [] + [x] == [x] && [x][1..] == [];
    } else {
      assert (lines + [x])[0] == lines[0];
      assert (lines + [x])[1..] == lines[1..] + [x];
      LatestSnoc(lines[1..], x);
    }
  }

  /** One line `<n>k h/s` sets the hashrate to n·1000, whatever the
      statistics were. */
  lemma OneLineSetsRate(s: Stats, n: nat, line: string)
    requires line == NatToString(n) + ['k'] + " " + Unit
    ensures Feed(s, [line]).hashrate == n as real * 1000.0
  {
    ParseFloatOfNat(n);
    FeedKiloLine(s, line, NatToString(n), n as real);
  }

  lemma FeedKiloLine(s: Stats, line: string, num: string, v: real)
    requires ParseFloat(num) == Some(v) && line == num + ['k'] + " " + Unit
    ensures Feed(s, [line]).hashrate == v * 1000.0
  {
    ScaledRateLine(num, v, 'k');
    KiloScale(v);
    FeedOneRate(s, line, v * 1000.0);
  }

  lemma FeedOneRate(s: Stats, line: string, x: real)
    requires HashrateOf(line) == Some(x)
    ensures Feed(s, [line]).hashrate == x
  {
    assert [line][..0] == [];
  }

  lemma KiloScale(v: real)
    ensures v * Multiplier('k') as real == v * 1000.0
  {
  }

  /** After any sequence of lines the monitor holds the hashrate of the last
      line that carried one and the totals of the last line that reported
      some; totals replace rather than accumulate. */

  lemma {:induction false} FeedKeepsLatest(s: Stats, lines: seq<string>)
    ensures Feed(s, lines).hashrate == (match LatestHashrate(lines) case Some(v) => v case None => s.hashrate)
    ensures (Feed(s, lines).accepted, Feed(s, lines).rejected)
         == (match LatestShares(lines) case Some(p) => p case None => (s.accepted, s.rejected))
    decreases |lines|
  {
    if lines != [] {
      var init, x := lines[..|lines| - 1], lines[|lines| - 1];
      assert lines == init + [x];
      FeedKeepsLatest(s, init);
      LatestSnoc(init, x);
    }
  }
}
