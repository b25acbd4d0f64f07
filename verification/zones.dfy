/**
 The rail controller's listeners. Each reads status lines from one printer
 port, strips them, ignores empty lines and the `wait` keep-alive, and looks
 for the first match of `Zone\s+(-?\d+)` in any letter case; a match moves
 the listener's rail axis to that zone.
 */
module ZoneEvents {
  import opened Wrappers
  import opened Text
  import Expansion

  /** ASCII lower case: the folding case-insensitive matching applies to the letters of `Zone`. */
  function Lower(c: char): char {
    if 'A' <= c <= 'Z' then (c as int + 32) as char else c
  }

  /** The word `zone`, in any mix of letter cases, starts at `i`. */
  predicate ZoneWordAt(s: string, i: nat) {
    && i + 4 <= |s|
    && Lower(s[i]) == 'z' && Lower(s[i + 1]) == 'o' && Lower(s[i + 2]) == 'n' && Lower(s[i + 3]) == 'e'
  }

  /** Where a match lies: the word at `start`, whitespace up to `SpacesEnd()`,
      a minus sign there when `negative`, and the captured digits
      `digitsStart..digitsEnd`. */
  datatype ZoneMatch = ZoneMatch(start: nat, negative: bool, digitsStart: nat, digitsEnd: nat)
  {
    function SpacesEnd(): int {
      if negative then digitsStart - 1 else digitsStart
    }
  }

  /** `m` is a match of `Zone\s+(-?\d+)` starting at `m.start`: at least one
      whitespace character, and a digit run that is maximal, as the greedy
      `\d+` takes it. */
  predicate IsMatch(s: string, m: ZoneMatch) {
    && ZoneWordAt(s, m.start)
    && m.start + 4 < m.SpacesEnd()
    && m.digitsStart < m.digitsEnd <= |s|
    && (forall k :: m.start + 4 <= k < m.SpacesEnd() ==> IsSpace(s[k]))
    && (m.negative ==> s[m.digitsStart - 1] == '-')
    && (forall k :: m.digitsStart <= k < m.digitsEnd ==> IsDigit(s[k]))
    && (m.digitsEnd == |s| || !IsDigit(s[m.digitsEnd]))
  }

  lemma DigitRun(s: string, lo: nat, hi: nat)
    requires lo <= hi <= |s|
    requires forall k :: lo <= k < hi ==> IsDigit(s[k])
    ensures AllDigits(s[lo..hi])
  {
    forall k | 0 <= k < hi - lo
      ensures IsDigit(s[lo..hi][k])
    {
      assert s[lo..hi][k] == s[lo + k];
    }
  }

  /** The integer the captured group denotes, as `int(match.group(1))` reads it. */
  function MatchValue(s: string, m: ZoneMatch): int
    requires IsMatch(s, m)
  {
    DigitRun(s, m.digitsStart, m.digitsEnd);
    var n: int := DecimalValue(s[m.digitsStart..m.digitsEnd]);
    if m.negative then -n else n
  }

  /** The regex tried at one position: the match starting at `i`, if there is one. */
  function MatchAt(s: string, i: nat): (r: Option<ZoneMatch>)
    ensures r.Some? ==> r.value.start == i && IsMatch(s, r.value)
  {
    if !ZoneWordAt(s, i) then None
    else
      var ws := SkipSpaces(s, i + 4);
      if ws == i + 4 then None
      else
        var neg := ws < |s| && s[ws] == '-';
        var ds := if neg then ws + 1 else ws;
        var de := SkipDigits(s, ds);
        if de == ds then None else Some(ZoneMatch(i, neg, ds, de))
  }

  /** Every match is the one found at its start position, so matches starting
      at the same place coincide. */
  lemma MatchAtComplete(s: string, m: ZoneMatch)
    requires IsMatch(s, m)
    ensures MatchAt(s, m.start) == Some(m)
  {
    var ws := SkipSpaces(s, m.start + 4);
    var e := m.SpacesEnd();
    assert !IsSpace(s[e]) by {
      if m.negative {
        assert s[e] == '-';
      } else {
        assert IsDigit(s[e]);
      }
    }
    assert ws == e;
    assert m.negative <==> ws < |s| && s[ws] == '-' by {
      if !m.negative {
        assert IsDigit(s[ws]);
      }
    }
    var de := SkipDigits(s, m.digitsStart);
  }

  /** `re.search`: the leftmost match starting at or after `from`. */
  function FindZone(s: string, from: nat): (r: Option<ZoneMatch>)
    ensures r.Some? ==> IsMatch(s, r.value) && from <= r.value.start
                        && forall m :: IsMatch(s, m) && from <= m.start ==> r.value.start <= m.start
    ensures r.None? ==> forall m :: IsMatch(s, m) ==> m.start < from
    decreases |s| - from
  {
    if from + 4 > |s| then None
    else
      match MatchAt(s, from)
      case Some(m) => Some(m)
      case None =>
        NoMatchAt(s, from);
        FindZone(s, from + 1)
  }

  lemma NoMatchAt(s: string, i: nat)
    requires MatchAt(s, i).None?
    ensures forall m :: IsMatch(s, m) ==> m.start != i
  {
    forall m | IsMatch(s, m)
      ensures m.start != i
    {
      MatchAtComplete(s, m);
    }
  }

  /** Two leftmost matches are the same match. */
  lemma LeftmostUnique(s: string, m1: ZoneMatch, m2: ZoneMatch)
    requires IsMatch(s, m1) && IsMatch(s, m2)
    requires forall m :: IsMatch(s, m) ==> m1.start <= m.start
    requires forall m :: IsMatch(s, m) ==> m2.start <= m.start
    ensures m1 == m2
  {
    MatchAtComplete(s, m1);
    MatchAtComplete(s, m2);
  }

  /** The zone a status line announces: nothing for an empty line or `wait`,
      otherwise the value of the leftmost match in the stripped line, if any. */
  function ZoneOf(line: string): (r: Option<int>)
    ensures Strip(line) == "" || Strip(line) == "wait" ==> r == None
    ensures r.Some? <==> exists m :: IsMatch(Strip(line), m)
    ensures r.Some? ==> exists m :: && IsMatch(Strip(line), m)
                                    && r.value == MatchValue(Strip(line), m)
                                    && forall m' :: IsMatch(Strip(line), m') ==> m.start <= m'.start
  {
    var t := Strip(line);
    if t == "" || t == "wait" then
      NoMatchInFiltered(t);
      None
    else
      match FindZone(t, 0)
      case None => None
      case Some(m) => Some(MatchValue(t, m))
  }

  /** The lines the listener skips before searching hold no match anyway. */
  lemma NoMatchInFiltered(t: string)
    requires t == "" || t == "wait"
    ensures forall m :: !IsMatch(t, m)
  {
  }

  /** The value of a line whose stripped text has `m` as its leftmost match. */
  lemma HeardAs(line: string, m: ZoneMatch, v: int)
    requires IsMatch(Strip(line), m)
    requires forall j :: 0 <= j < m.start ==> !ZoneWordAt(Strip(line), j)
    requires MatchValue(Strip(line), m) == v
    ensures ZoneOf(line) == Some(v)
  {
    var t := Strip(line);
    var r := ZoneOf(line);
    assert r.Some?;
    var m2 :| IsMatch(t, m2) && r.value == MatchValue(t, m2)
              && forall m' :: IsMatch(t, m') ==> m2.start <= m'.start;
    LeftmostUnique(t, m, m2);
  }

  /** The sign text a match may carry before its digits. */
  function SignText(negative: bool): string {
    if negative then "-" else ""
  }

  /** A status line built as: a prefix without the letter z, the word in some
      letter case, whitespace, an optional minus sign, digits, and a rest that
      does not start with a digit. Its leftmost match is the one built in. */
  lemma ReadAnnouncement(p: string, w: string, gap: string, neg: bool, digits: string, rest: string)
    returns (m: ZoneMatch)
    requires forall k :: 0 <= k < |p| ==> Lower(p[k]) != 'z'
    requires |w| == 4 && ZoneWordAt(w, 0)
    requires |gap| > 0 && AllSpace(gap)
    requires |digits| > 0 && AllDigits(digits)
    requires |rest| == 0 || !IsDigit(rest[0])
    ensures var t := p + w + gap + SignText(neg) + digits + rest;
            && IsMatch(t, m) && m.start == |p| && m.negative == neg
            && t[m.digitsStart..m.digitsEnd] == digits
            && forall j :: 0 <= j < m.start ==> !ZoneWordAt(t, j)
  {
    var a := p + w + gap + SignText(neg);
    var t := a + digits + rest;
    var ds := |a|;
    var de := ds + |digits|;
    m := ZoneMatch(|p|, neg, ds, de);
    forall j | 0 <= j < |p|
      ensures !ZoneWordAt(t, j)
    {
      assert t[j] == p[j];
    }
    forall k | 0 <= k < 4
      ensures t[|p| + k] == w[k]
    {
      assert t[|p| + k] == a[|p| + k];
    }
    forall k | |p| + 4 <= k < m.SpacesEnd()
      ensures IsSpace(t[k])
    {
      assert t[k] == a[k] == gap[k - |p| - 4];
    }
    assert neg ==> t[ds - 1] == a[ds - 1] == '-';
    forall k | ds <= k < de
      ensures IsDigit(t[k])
    {
      assert t[k] == digits[k - ds];
    }
    assert de < |t| ==> t[de] == rest[0];
    assert t[ds..de] == digits;
  }

  /** The text `Zone ` followed by the decimal form of `v`, after a prefix
      without the letter z, has a leftmost match denoting `v`. */
  lemma AnnouncedZone(p: string, v: int) returns (m: ZoneMatch)
    requires forall k :: 0 <= k < |p| ==> Lower(p[k]) != 'z'
    ensures var t := p + "Zone " + IntToDecimal(v);
            && IsMatch(t, m) && MatchValue(t, m) == v && m.start == |p|
            && forall j :: 0 <= j < m.start ==> !ZoneWordAt(t, j)
  {
    var n: nat := if v < 0 then -v else v;
    var digits := NatToDecimal(n);
    assert ZoneWordAt("Zone", 0);
    m := ReadAnnouncement(p, "Zone", " ", v < 0, digits, "");
    AnnouncementParts(p, v);
    DecimalRoundTrip(n);
  }

  lemma AnnouncementParts(p: string, v: int)
    ensures p + "Zone " + IntToDecimal(v)
            == p + "Zone" + " " + SignText(v < 0) + NatToDecimal(if v < 0 then -v else v) + ""
  {
    var digits := NatToDecimal(if v < 0 then -v else v);
    assert IntToDecimal(v) == SignText(v < 0) + digits;
    assert "Zone " == "Zone" + " ";
    AppendAssoc(p, "Zone", " ");
    AppendAssoc(p + "Zone" + " ", SignText(v < 0), digits);
  }

  /** A status line holding `Zone v` after a prefix without the letter z, with
      any line ending, is heard as zone `v`. */
  lemma HeardLine(p: string, v: int, eol: string)
    requires forall k :: 0 <= k < |p| ==> Lower(p[k]) != 'z'
    requires |p| > 0 ==> !IsSpace(p[0])
    requires AllSpace(eol)
    ensures ZoneOf(p + "Zone " + IntToDecimal(v) + eol) == Some(v)
  {
    var t := p + "Zone " + IntToDecimal(v);
    var line := t + eol;
    assert line[..|t|] == t && line[|t|..] == eol;
    var digits := NatToDecimal(if v < 0 then -v else v);
    assert t[|t| - 1] == digits[|digits| - 1];
    assert !IsSpace(t[0]) by {
      if |p| == 0 {
        assert t[0] == 'Z';
      } else {
        assert t[0] == p[0];
      }
    }
    StripUnique(line, 0, t);
    var m := AnnouncedZone(p, v);
    HeardAs(line, m, v);
  }

  /** The echo of `Zone v`, with any line ending, is heard as zone `v`. */
  lemma HeardZone(v: int, eol: string)
    requires AllSpace(eol)
    ensures ZoneOf("Zone " + IntToDecimal(v) + eol) == Some(v)
  {
    assert "" + "Zone " == "Zone ";
    HeardLine("", v, eol);
  }

  /** A zone marker line the transformer writes is heard as the zone it names. */
  lemma MarkerIsHeard(d: nat)
    ensures ZoneOf(Expansion.ZoneMarker(d)) == Some(d)
  {
    var p := "M118 P0 ";
    assert p + "Zone " == "M118 P0 Zone ";
    assert IntToDecimal(d) == NatToDecimal(d);
    HeardLine(p, d, "\n");
  }

  /** The keep-alive and a blank line are skipped. */
  lemma SkippedLinesExample()
    ensures ZoneOf("wait") == None && ZoneOf("  \r\n") == None
  {
    StripUnique("wait", 0, "wait");
    assert StripsTo("  \r\n", 4, "");
    StripUnique("  \r\n", 4, "");
  }

  /** A motion report holds no zone. */
  lemma MotionReportExample()
    ensures ZoneOf("X:10.00 Y:0.00") == None
  {
    var t := "X:10.00 Y:0.00";
    assert Strip(t) == t by {
      StripUnique(t, 0, t);
    }
    assert forall m :: !IsMatch(t, m) by {
      assert forall i :: 0 <= i < |t| ==> Lower(t[i]) != 'z';
    }
  }

  /** A line is silent when the search finds nothing at any position. */
  lemma SilentWhenNoMatchAt(line: string)
    requires forall i :: 0 <= i <= |Strip(line)| ==> MatchAt(Strip(line), i).None?
    ensures ZoneOf(line) == None
  {
    var t := Strip(line);
    forall m | IsMatch(t, m)
      ensures false
    {
      MatchAtComplete(t, m);
    }
  }

  /** The word needs whitespace after it. */
  lemma GluedZoneExample()
    ensures ZoneOf("ZONE0") == None
  {
    var t := "ZONE0";
    assert Strip(t) == t by {
      StripUnique(t, 0, t);
    }
    assert MatchAt(t, 0) == None by {
      assert SkipSpaces(t, 4) == 4;
    }
    SilentWhenNoMatchAt(t);
  }

  /** A minus sign must touch the digits. */
  lemma DetachedSignExample()
    ensures ZoneOf("Zone - 5") == None
  {
    var t := "Zone - 5";
    assert Strip(t) == t by {
      StripUnique(t, 0, t);
    }
    assert MatchAt(t, 0) == None by {
      assert SkipSpaces(t, 4) == 5;
      assert SkipDigits(t, 6) == 6;
    }
    SilentWhenNoMatchAt(t);
  }

  /** Any letter case, several spaces and a minus sign. */
  lemma NegativeZoneExample()
    ensures ZoneOf("zone   -5") == Some(-5)
  {
    var t := "zone   -5";
    assert t == "" + "zone" + "   " + SignText(true) + "5" + "";
    assert Strip(t) == t by {
      StripUnique(t, 0, t);
    }
    var m := ReadAnnouncement("", "zone", "   ", true, "5", "");
    assert MatchValue(t, m) == -5;
    HeardAs(t, m, -5);
  }

  /** The word may sit inside another word, and the digits stop at the first non-digit. */
  lemma EmbeddedZoneExample()
    ensures ZoneOf("ozone 12abc") == Some(12)
  {
    var t := "ozone 12abc";
    assert Strip(t) == t by {
      StripUnique(t, 0, t);
    }
    var m := EmbeddedMatch();
    HeardAs(t, m, 12);
  }

  lemma EmbeddedMatch() returns (m: ZoneMatch)
    ensures IsMatch("ozone 12abc", m) && m.start == 1 && MatchValue("ozone 12abc", m) == 12
  {
    var t := "ozone 12abc";
    assert t == "o" + "zone" + " " + SignText(false) + "12" + "abc";
    m := ReadAnnouncement("o", "zone", " ", false, "12", "abc");
    assert DecimalValue("12") == 12 by {
      assert DecimalValue("1") == 1 by {
        assert "1"[..0] == "";
      }
      assert "12"[..1] == "1";
    }
  }

  /** Of two announcements on one line, the first counts. */
  lemma FirstZoneWinsExample()
    ensures ZoneOf("Zone 1 zone 2") == Some(1)
  {
    var t := "Zone 1 zone 2";
    assert t == "" + "Zone" + " " + SignText(false) + "1" + " zone 2";
    assert Strip(t) == t by {
      StripUnique(t, 0, t);
    }
    var m := ReadAnnouncement("", "Zone", " ", false, "1", " zone 2");
    assert MatchValue(t, m) == 1;
    HeardAs(t, m, 1);
  }

  /** The rail a listener drives: the left port moves X, the right port moves Y. */
  datatype Side = Left | Right
  datatype Axis = X | Y

  function AxisOf(side: Side): Axis {
    match side
    case Left => X
    case Right => Y
  }

  /** What a listener does with one line: nothing, or move its axis to a zone.
      The machine position sent is that zone divided by 95, in floating point,
      which is not modelled. */
  datatype Reaction = Ignore | MoveTo(axis: Axis, zone: int)

  function React(side: Side, line: string): (r: Reaction)
    ensures r.MoveTo? <==> exists m :: IsMatch(Strip(line), m)
    ensures r.MoveTo? ==> && r.axis == AxisOf(side)
                          && exists m :: && IsMatch(Strip(line), m)
                                         && r.zone == MatchValue(Strip(line), m)
                                         && forall m' :: IsMatch(Strip(line), m') ==> m.start <= m'.start
  {
    match ZoneOf(line)
    case None => Ignore
    case Some(v) => MoveTo(AxisOf(side), v)
  }

  /** The two listeners react to the same lines with the same zone and differ
      only in the axis they move. */
  lemma ListenersAgree(line: string)
    ensures React(Left, line).MoveTo? <==> React(Right, line).MoveTo?
    ensures React(Left, line).MoveTo? ==>
              React(Left, line) == MoveTo(X, React(Right, line).zone)
              && React(Right, line).axis == Y
    ensures ZoneOf(line).None? ==> React(Left, line) == Ignore && React(Right, line) == Ignore
  {
  }
}
