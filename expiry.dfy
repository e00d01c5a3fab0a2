/**
 * The expiry stamp: `datetime.strptime(t, "%Y-%m-%dT%H%M%S%z").timestamp()`.
 *
 * CPython's `_strptime` compiles the format into a regular expression whose
 * directives are alternations tried left to right, runs `re.match` (the first
 * match in backtracking order, not necessarily the longest), raises
 * "unconverted data remains" when that match stops short of the end, and then
 * lets `datetime` and `timezone` reject out-of-range values.
 *
 * The text reaching it here is drawn from `[0-9\-T:\+]` with every ':'
 * removed, so it holds only digits, '-', 'T' and '+'. On that alphabet the
 * `%z` group `[+-]\d\d:?[0-5]\d(:?[0-5]\d(\.\d{1,6})?)?|Z` can only match
 * `[+-]\d\d[0-5]\d([0-5]\d)?`, the lower-case 't' that IGNORECASE would admit
 * never occurs, and neither does the " [1-9]" alternative of `%d`; the model
 * therefore leaves those alternatives out.
 */
module Expiry {
  import opened Wrappers
  import opened Text
  import Calendar

  /** The character class `[0-9\-T:\+]` of the `tsExpires` marker. */
  predicate IsStampChar(c: char) { IsDigit(c) || c == '-' || c == 'T' || c == ':' || c == '+' }

  /** Text the parser can receive: stamp characters with the colons already removed. */
  predicate CompactStampText(t: string)
  {
    forall i :: 0 <= i < |t| ==> IsStampChar(t[i]) && t[i] != ':'
  }

  /** What one position of a pattern accepts. */
  datatype CharSet = AnyDigit | DigitIn(lo: char, hi: char) | Exactly(c: char)

  predicate Accepts(cs: CharSet, c: char)
  {
    match cs
    case AnyDigit => IsDigit(c)
    case DigitIn(lo, hi) => lo <= c <= hi
    case Exactly(x) => c == x
  }

  /** One alternative of a directive: a fixed run of one, two or four positions. */
  datatype Alternative = One(a: CharSet) | Two(a: CharSet, b: CharSet) | Four(a: CharSet, b: CharSet, c: CharSet, d: CharSet)

  function Width(p: Alternative): nat
  {
    match p
    case One(_) => 1
    case Two(_, _) => 2
    case Four(_, _, _, _) => 4
  }

  /** The directives of "%Y-%m-%dT%H%M%S": year, '-', month, '-', day, 'T', hour, minute, second. */
  const DirectiveCount := 9

  /** How many alternatives directive `i` has. */
  function AltCount(i: nat): nat
  {
    match i
    case 2 => 3
    case 4 => 4
    case 6 => 3
    case 7 => 2
    case 8 => 3
    case _ => 1
  }

  /** Alternative `a` of directive `i`, in the order the regular expression tries them. */
  function Alt(i: nat, a: nat): Alternative
    requires i < DirectiveCount && a < AltCount(i)
  {
    match i
    case 0 => Four(AnyDigit, AnyDigit, AnyDigit, AnyDigit)                 // %Y  \d\d\d\d
    case 1 => One(Exactly('-'))
    case 2 =>                                                                  // %m  1[0-2]|0[1-9]|[1-9]
      if a == 0 then Two(Exactly('1'), DigitIn('0', '2'))
      else if a == 1 then Two(Exactly('0'), DigitIn('1', '9'))
      else One(DigitIn('1', '9'))
    case 3 => One(Exactly('-'))
    case 4 =>                                                                  // %d  3[01]|[12]\d|0[1-9]|[1-9]
      if a == 0 then Two(Exactly('3'), DigitIn('0', '1'))
      else if a == 1 then Two(DigitIn('1', '2'), AnyDigit)
      else if a == 2 then Two(Exactly('0'), DigitIn('1', '9'))
      else One(DigitIn('1', '9'))
    case 5 => One(Exactly('T'))
    case 6 =>                                                                  // %H  2[0-3]|[0-1]\d|\d
      if a == 0 then Two(Exactly('2'), DigitIn('0', '3'))
      else if a == 1 then Two(DigitIn('0', '1'), AnyDigit)
      else One(AnyDigit)
    case 7 =>                                                                  // %M  [0-5]\d|\d
      if a == 0 then Two(DigitIn('0', '5'), AnyDigit) else One(AnyDigit)
    case _ =>                                                                  // %S  6[0-1]|[0-5]\d|\d
      if a == 0 then Two(Exactly('6'), DigitIn('0', '1'))
      else if a == 1 then Two(DigitIn('0', '5'), AnyDigit)
      else One(AnyDigit)
  }

  // Positions of the numeric groups among the captured texts; the offset comes last (9).
  const YearGroup := 0
  const MonthGroup := 2
  const DayGroup := 4
  const HourGroup := 6
  const MinuteGroup := 7
  const SecondGroup := 8

  /** Alternative `p` matches `s` at `pos`. */
  predicate MatchesAt(p: Alternative, s: string, pos: nat)
  {
    && pos + Width(p) <= |s|
    && match p
       case One(a) => Accepts(a, s[pos])
       case Two(a, b) => Accepts(a, s[pos]) && Accepts(b, s[pos + 1])
       case Four(a, b, c, d) =>
         Accepts(a, s[pos]) && Accepts(b, s[pos + 1]) && Accepts(c, s[pos + 2]) && Accepts(d, s[pos + 3])
  }

  /**
   * What the text directive `k` captures looks like: the literal separator,
   * four digits for the year, one or two digits for the other fields.
   */
  predicate FieldText(k: nat, t: string)
  {
    if k == 1 || k == 3 then t == "-"
    else if k == 5 then t == "T"
    else (if k == YearGroup then |t| == 4 else 1 <= |t| <= 2) && AllDigits(t)
  }

  /** Each alternative of each directive spells a text of the directive's shape. */
  lemma AltSpells(i: nat, a: nat, s: string, pos: nat)
    requires i < DirectiveCount && a < AltCount(i)
    requires MatchesAt(Alt(i, a), s, pos)
    ensures FieldText(i, s[pos..pos + Width(Alt(i, a))])
  {
    var t := s[pos..pos + Width(Alt(i, a))];
    if i == 1 || i == 3 || i == 5 {
      assert t == [s[pos]];
    } else if Width(Alt(i, a)) == 1 {
      assert t[0] == s[pos];
    } else if Width(Alt(i, a)) == 2 {
      assert t[0] == s[pos] && t[1] == s[pos + 1];
    } else {
      assert t[0] == s[pos] && t[1] == s[pos + 1] && t[2] == s[pos + 2] && t[3] == s[pos + 3];
    }
  }

  /** The text `%z` captures here: a sign, hours, minutes and possibly seconds. */
  predicate IsOffsetText(z: string)
  {
    (|z| == 5 || |z| == 7) && (z[0] == '+' || z[0] == '-') && AllDigits(z[1..])
  }

  /** The `%z` group at `pos`, taking the optional seconds whenever they are there. */
  function OffsetAt(s: string, pos: nat): (r: Option<string>)
    requires pos <= |s|
    ensures r.Some? ==> IsOffsetText(r.value) && pos + |r.value| <= |s| && s[pos..pos + |r.value|] == r.value
  {
    if pos + 5 <= |s| && (s[pos] == '+' || s[pos] == '-') && IsDigit(s[pos + 1]) && IsDigit(s[pos + 2])
       && '0' <= s[pos + 3] <= '5' && IsDigit(s[pos + 4])
    then
      if pos + 7 <= |s| && '0' <= s[pos + 5] <= '5' && IsDigit(s[pos + 6]) then Some(s[pos..pos + 7])
      else Some(s[pos..pos + 5])
    else None
  }

  function Flatten(ts: seq<string>): string
    decreases |ts|
  {
    if ts == [] then "" else ts[0] + Flatten(ts[1..])
  }

  /** A successful match: the text of each directive, then the offset, and where the match ends. */
  datatype Groups = Groups(texts: seq<string>, end: nat)

  /** What every match found from `pos` for directives `i..` satisfies. */
  predicate Sound(i: nat, s: string, pos: nat, g: Groups)
    requires i <= DirectiveCount
  {
    && pos <= g.end <= |s| && |g.texts| == DirectiveCount - i + 1
    && Flatten(g.texts) == s[pos..g.end]
    && (forall j :: 0 <= j < DirectiveCount - i ==> FieldText(i + j, g.texts[j]))
    && IsOffsetText(g.texts[DirectiveCount - i])
  }

  /**
   * `re.match` of directives `i..` followed by `%z`, from `pos`: the first
   * combination of alternatives, in backtracking order, with which the rest
   * of the pattern also matches.
   */
  function FirstMatch(i: nat, s: string, pos: nat): (r: Option<Groups>)
    requires i <= DirectiveCount && pos <= |s|
    ensures r.Some? ==> |r.value.texts| == DirectiveCount - i + 1
    decreases DirectiveCount - i, 1, 0
  {
    if i == DirectiveCount then
      match OffsetAt(s, pos)
      case None => None
      case Some(z) => Some(Groups([z], pos + |z|))
    else TryAlternatives(i, 0, s, pos)
  }

  function TryAlternatives(i: nat, a: nat, s: string, pos: nat): (r: Option<Groups>)
    requires i < DirectiveCount && a <= AltCount(i) && pos <= |s|
    ensures r.Some? ==> |r.value.texts| == DirectiveCount - i + 1
    decreases DirectiveCount - i, 0, AltCount(i) - a
  {
    if a == AltCount(i) then None
    else
      var p := Alt(i, a);
      if MatchesAt(p, s, pos) then
        match FirstMatch(i + 1, s, pos + Width(p))
        case Some(g) => Some(Groups([s[pos..pos + Width(p)]] + g.texts, g.end))
        case None => TryAlternatives(i, a + 1, s, pos)
      else TryAlternatives(i, a + 1, s, pos)
  }

  /** A match spells out the text it covers, each piece by an alternative of its directive, the offset last. */
  lemma {:induction false} FirstMatchSound(i: nat, s: string, pos: nat)
    requires i <= DirectiveCount && pos <= |s|
    ensures FirstMatch(i, s, pos).Some? ==> Sound(i, s, pos, FirstMatch(i, s, pos).value)
    decreases DirectiveCount - i, 1, 0
  {
    if i == DirectiveCount {
      if OffsetAt(s, pos).Some? {
        var z := OffsetAt(s, pos).value;
        assert [z][1..] == [];
      }
    } else {
      TryAlternativesSound(i, 0, s, pos);
    }
  }

  lemma {:induction false} TryAlternativesSound(i: nat, a: nat, s: string, pos: nat)
    requires i < DirectiveCount && a <= AltCount(i) && pos <= |s|
    ensures TryAlternatives(i, a, s, pos).Some? ==> Sound(i, s, pos, TryAlternatives(i, a, s, pos).value)
    decreases DirectiveCount - i, 0, AltCount(i) - a
  {
    if a < AltCount(i) {
      if MatchesAt(Alt(i, a), s, pos) {
        FirstMatchSound(i + 1, s, pos + Width(Alt(i, a)));
      }
      TryAlternativesSound(i, a + 1, s, pos);
      TryStep(i, a, s, pos);
    }
  }

  /** One step of the backtracking: alternative `a` with the rest after it, or else the later alternatives. */
  lemma TryStep(i: nat, a: nat, s: string, pos: nat)
    requires i < DirectiveCount && a < AltCount(i) && pos <= |s|
    requires MatchesAt(Alt(i, a), s, pos) && FirstMatch(i + 1, s, pos + Width(Alt(i, a))).Some? ==>
               Sound(i + 1, s, pos + Width(Alt(i, a)), FirstMatch(i + 1, s, pos + Width(Alt(i, a))).value)
    requires TryAlternatives(i, a + 1, s, pos).Some? ==> Sound(i, s, pos, TryAlternatives(i, a + 1, s, pos).value)
    ensures TryAlternatives(i, a, s, pos).Some? ==> Sound(i, s, pos, TryAlternatives(i, a, s, pos).value)
  {
    var p := Alt(i, a);
    var rest := if MatchesAt(p, s, pos) then FirstMatch(i + 1, s, pos + Width(p)) else None;
    if rest.Some? {
      ExtendMatch(i, a, s, pos, rest.value);
      assert TryAlternatives(i, a, s, pos) == Some(Groups([s[pos..pos + Width(p)]] + rest.value.texts, rest.value.end));
    } else {
      assert TryAlternatives(i, a, s, pos) == TryAlternatives(i, a + 1, s, pos);
    }
  }

  /**
   * Completeness of the backtracking: when alternative `b` matches and the
   * rest of the pattern matches after it, trying the alternatives from any
   * `a <= b` finds a match (alternative `b`'s or an earlier one's).
   */
  lemma {:induction false} TryAlternativesComplete(i: nat, a: nat, b: nat, s: string, pos: nat)
    requires i < DirectiveCount && a <= b < AltCount(i) && pos <= |s|
    requires MatchesAt(Alt(i, b), s, pos) && FirstMatch(i + 1, s, pos + Width(Alt(i, b))).Some?
    ensures TryAlternatives(i, a, s, pos).Some?
    decreases b - a
  {
    if a < b {
      TryAlternativesComplete(i, a + 1, b, s, pos);
    }
  }

  /** `re.match` finds a match whenever some alternative of directive `i` starts one that the rest completes. */
  lemma FirstMatchComplete(i: nat, b: nat, s: string, pos: nat)
    requires i < DirectiveCount && b < AltCount(i) && pos <= |s|
    requires MatchesAt(Alt(i, b), s, pos) && FirstMatch(i + 1, s, pos + Width(Alt(i, b))).Some?
    ensures FirstMatch(i, s, pos).Some?
  {
    TryAlternativesComplete(i, 0, b, s, pos);
  }

  /** Putting the text of alternative `a` of directive `i` in front of a match of the rest. */
  lemma ExtendMatch(i: nat, a: nat, s: string, pos: nat, g: Groups)
    requires i < DirectiveCount && a < AltCount(i) && pos <= |s|
    requires MatchesAt(Alt(i, a), s, pos)
    requires Sound(i + 1, s, pos + Width(Alt(i, a)), g)
    ensures Sound(i, s, pos, Groups([s[pos..pos + Width(Alt(i, a))]] + g.texts, g.end))
  {
    var p := Alt(i, a);
    var t := s[pos..pos + Width(p)];
    var texts := [t] + g.texts;
    AltSpells(i, a, s, pos);
    assert texts[1..] == g.texts;
    assert s[pos..g.end] == t + s[pos + Width(p)..g.end];
    forall j | 0 <= j < DirectiveCount - i
      ensures FieldText(i + j, texts[j])
    {
      if j > 0 {
        assert texts[j] == g.texts[j - 1];
        assert FieldText(i + 1 + (j - 1), g.texts[j - 1]);
      }
    }
  }

  // ---- From the matched texts to an instant ----

  /** The fields `strptime` reads: local date and time, and the offset in seconds east of UTC. */
  datatype Stamp = Stamp(year: int, month: int, day: int, hour: int, minute: int, second: int, offset: int)
  {
    /** The values `datetime` and `timezone` accept without raising ValueError. */
    predicate Valid()
    {
      && Calendar.ValidDate(year, month, day)
      && 0 <= hour <= 23 && 0 <= minute <= 59 && 0 <= second <= 59
      && -86400 < offset < 86400
    }

    /** `.timestamp()` of the aware datetime: the local time written, minus the offset. */
    function Timestamp(): int
      requires Valid()
    {
      Calendar.EpochSeconds(year, month, day, hour, minute, second, offset)
    }
  }

  /** The offset `%z` denotes, in seconds: hours, minutes and seconds, negated after '-'. */
  function OffsetSeconds(z: string): (o: int)
    requires IsOffsetText(z)
    ensures o > 0 ==> z[0] == '+'
    ensures o < 0 ==> z[0] == '-'
  {
    var magnitude := DecimalValue(z[1..3]) * 3600 + DecimalValue(z[3..5]) * 60
                     + (if |z| == 7 then DecimalValue(z[5..7]) else 0);
    if z[0] == '-' then -magnitude else magnitude
  }

  /**
   * `datetime.strptime(t, "%Y-%m-%dT%H%M%S%z")`, or None where it raises:
   * no match, a match that stops before the end, or a value out of range.
   */
  function Strptime(t: string): (r: Option<Stamp>)
    requires CompactStampText(t)
    ensures r.Some? ==> r.value.Valid()
  {
    match FirstMatch(0, t, 0)
    case None => None
    case Some(g) =>
      if g.end != |t| then None
      else
        FirstMatchSound(0, t, 0);
        assert FieldText(YearGroup, g.texts[YearGroup]) && FieldText(MonthGroup, g.texts[MonthGroup])
               && FieldText(DayGroup, g.texts[DayGroup]) && FieldText(HourGroup, g.texts[HourGroup])
               && FieldText(MinuteGroup, g.texts[MinuteGroup]) && FieldText(SecondGroup, g.texts[SecondGroup]);
        var st := Stamp(DecimalValue(g.texts[YearGroup]), DecimalValue(g.texts[MonthGroup]),
                        DecimalValue(g.texts[DayGroup]), DecimalValue(g.texts[HourGroup]),
                        DecimalValue(g.texts[MinuteGroup]), DecimalValue(g.texts[SecondGroup]),
                        OffsetSeconds(g.texts[DirectiveCount]));
        if st.Valid() then Some(st) else None
  }

  /**
   * What a parse of `t` reads: `t` spelled out field by field in directive
   * shapes, the offset last, and the stamp built from the fields' values.
   */
  predicate ReadsAs(t: string, texts: seq<string>, st: Stamp)
  {
    && |texts| == DirectiveCount + 1 && Flatten(texts) == t
    && (forall k :: 0 <= k < DirectiveCount ==> FieldText(k, texts[k]))
    && IsOffsetText(texts[DirectiveCount])
    && st == Stamp(DecimalValue(texts[YearGroup]), DecimalValue(texts[MonthGroup]),
                   DecimalValue(texts[DayGroup]), DecimalValue(texts[HourGroup]),
                   DecimalValue(texts[MinuteGroup]), DecimalValue(texts[SecondGroup]),
                   OffsetSeconds(texts[DirectiveCount]))
  }

  /**
   * Whatever text it accepts, `Strptime` returns a valid stamp whose fields
   * are the decimal values of a spelling of the whole text in the directives'
   * shapes, and whose offset is the value of the `%z` text at its end.
   */
  lemma StrptimeSound(t: string)
    requires CompactStampText(t)
    ensures Strptime(t).Some? ==> Strptime(t).value.Valid() && exists texts :: ReadsAs(t, texts, Strptime(t).value)
  {
    if Strptime(t).Some? {
      FirstMatchSound(0, t, 0);
      var g := FirstMatch(0, t, 0).value;
      assert t[0..g.end] == t;
      assert ReadsAs(t, g.texts, Strptime(t).value);
    }
  }

  /** The local time of day, in seconds. */
  function SecondOfDay(st: Stamp): int
  {
    st.hour * 3600 + st.minute * 60 + st.second
  }

  /** `a`'s local date and time come before `b`'s. */
  predicate LocalBefore(a: Stamp, b: Stamp)
  {
    || a.year < b.year
    || (a.year == b.year && a.month < b.month)
    || (a.year == b.year && a.month == b.month && a.day < b.day)
    || (a.year == b.year && a.month == b.month && a.day == b.day && SecondOfDay(a) < SecondOfDay(b))
  }

  /** At the same offset, a later local time is a later instant. */
  lemma TimestampMonotonic(a: Stamp, b: Stamp)
    requires a.Valid() && b.Valid() && a.offset == b.offset && LocalBefore(a, b)
    ensures a.Timestamp() < b.Timestamp()
  {
    var da := Calendar.Ordinal(a.year, a.month, a.day) - Calendar.UnixEpochOrdinal;
    var db := Calendar.Ordinal(b.year, b.month, b.day) - Calendar.UnixEpochOrdinal;
    assert a.Timestamp() == da * 86400 + SecondOfDay(a) - a.offset;
    assert b.Timestamp() == db * 86400 + SecondOfDay(b) - b.offset;
    if (a.year, a.month, a.day) != (b.year, b.month, b.day) {
      Calendar.OrdinalMonotonic(a.year, a.month, a.day, b.year, b.month, b.day);
      DayDominates(da, db, SecondOfDay(a), SecondOfDay(b));
    }
  }

  /** A later day outweighs any time of day. */
  lemma DayDominates(da: int, db: int, sa: int, sb: int)
    requires da < db && 0 <= sa < 86400 && 0 <= sb < 86400
    ensures da * 86400 + sa < db * 86400 + sb
  {
    assert db * 86400 - da * 86400 == (db - da) * 86400;
  }

  // ---- The form the listing page writes ----

  function Pad2(v: int): (s: string)
    requires 0 <= v < 100
    ensures |s| == 2 && AllDigits(s) && DecimalValue(s) == v
    ensures s[0] as int - '0' as int == v / 10
  {
    var s := [DigitChar(v / 10), DigitChar(v % 10)];
    assert s[..1] == [s[0]] && s[..1][..0] == [];
    assert DecimalValue(s[..1]) == v / 10;
    s
  }

  function Pad4(v: int): (s: string)
    requires 0 <= v < 10000
    ensures |s| == 4 && AllDigits(s) && DecimalValue(s) == v
  {
    AppendTwoDigits(Pad2(v / 100), Pad2(v % 100));
    Pad2(v / 100) + Pad2(v % 100)
  }

  /** Two more digits multiply the value before them by a hundred. */
  lemma AppendTwoDigits(a: string, b: string)
    requires AllDigits(a) && AllDigits(b) && |b| == 2
    ensures AllDigits(a + b) && DecimalValue(a + b) == 100 * DecimalValue(a) + DecimalValue(b)
  {
    var s := a + b;
    var d0, d1 := b[0] as int - '0' as int, b[1] as int - '0' as int;
    assert s[..|s| - 1] == a + [b[0]];
    assert (a + [b[0]])[..|a|] == a;
    assert DecimalValue(a + [b[0]]) == 10 * DecimalValue(a) + d0;
    assert b[..|b| - 1] == [b[0]] && [b[0]][..0] == [];
    assert DecimalValue([b[0]]) == d0;
    assert DecimalValue(b) == 10 * d0 + d1;
    assert DecimalValue(s) == 10 * (10 * DecimalValue(a) + d0) + d1;
  }

  /** `±HHMM`, with `SS` appended only when the offset has seconds. */
  function OffsetText(o: int): (z: string)
    requires -86400 < o < 86400
    ensures IsOffsetText(z) && OffsetSeconds(z) == o
    ensures '0' <= z[3] <= '5' && (|z| == 7 ==> '0' <= z[5] <= '5')
  {
    var a := if o < 0 then -o else o;
    OffsetParts(a);
    var sign := if o < 0 then '-' else '+';
    var ss := if a % 60 == 0 then "" else Pad2(a % 60);
    OffsetLayout(sign, Pad2(a / 3600), Pad2(a % 3600 / 60), ss);
    [sign] + Pad2(a / 3600) + Pad2(a % 3600 / 60) + ss
  }

  /** Where the sign, hours, minutes and optional seconds sit in an offset text. */
  lemma OffsetLayout(sign: char, hh: string, mm: string, ss: string)
    requires |hh| == 2 && |mm| == 2 && AllDigits(hh) && AllDigits(mm)
    requires |ss| == 0 || (|ss| == 2 && AllDigits(ss))
    ensures var z := [sign] + hh + mm + ss;
      && |z| == 5 + |ss| && z[0] == sign && z[1..3] == hh && z[3..5] == mm && z[3] == mm[0]
      && (|ss| == 2 ==> z[5..7] == ss && z[5] == ss[0])
      && AllDigits(z[1..])
  {
    var z := [sign] + hh + mm + ss;
    assert z[1..] == hh + mm + ss;
  }

  lemma OffsetParts(a: int)
    requires 0 <= a < 86400
    ensures a / 3600 < 24 && a % 3600 / 60 < 60 && a % 60 < 60
    ensures a == a / 3600 * 3600 + a % 3600 / 60 * 60 + a % 60
    ensures a % 3600 / 60 / 10 <= 5 && a % 60 / 10 <= 5
  {
  }

  /** `YYYY-MM-DDTHH:MM:SS±HHMM`: the expiry as the listing page writes it. */
  function FormatStamp(st: Stamp): string
    requires st.Valid()
  {
    Pad4(st.year) + "-" + Pad2(st.month) + "-" + Pad2(st.day) + "T" + Pad2(st.hour) + ":"
      + Pad2(st.minute) + ":" + Pad2(st.second) + OffsetText(st.offset)
  }

  /** Text made only of stamp characters. */
  predicate StampChars(t: string)
  {
    forall q :: 0 <= q < |t| ==> IsStampChar(t[q])
  }

  lemma StampCharsAppend(a: string, b: string)
    requires StampChars(a) && StampChars(b)
    ensures StampChars(a + b)
  {
  }

  /** The page's form starts with two digits and holds nothing but stamp characters. */
  lemma FormatAlphabet(st: Stamp)
    requires st.Valid()
    ensures var f := FormatStamp(st); |f| >= 2 && IsDigit(f[0]) && IsDigit(f[1]) && StampChars(f)
  {
    var z := OffsetText(st.offset);
    assert StampChars(z) by {
      forall q | 0 <= q < |z|
        ensures IsStampChar(z[q])
      {
        if q > 0 {
          assert z[q] == z[1..][q - 1];
        }
      }
    }
    var t := Pad4(st.year);
    StampCharsAppend(t, "-");
    t := t + "-";
    StampCharsAppend(t, Pad2(st.month));
    t := t + Pad2(st.month);
    StampCharsAppend(t, "-");
    t := t + "-";
    StampCharsAppend(t, Pad2(st.day));
    t := t + Pad2(st.day);
    StampCharsAppend(t, "T");
    t := t + "T";
    StampCharsAppend(t, Pad2(st.hour));
    t := t + Pad2(st.hour);
    StampCharsAppend(t, ":");
    t := t + ":";
    StampCharsAppend(t, Pad2(st.minute));
    t := t + Pad2(st.minute);
    StampCharsAppend(t, ":");
    t := t + ":";
    StampCharsAppend(t, Pad2(st.second));
    t := t + Pad2(st.second);
    StampCharsAppend(t, z);
    t := t + z;
    assert t == FormatStamp(st);
    assert t[0] == Pad4(st.year)[0] && t[1] == Pad4(st.year)[1];
  }

  /** The same text after `re.sub(":", "", ...)`. */
  function CompactForm(st: Stamp): string
    requires st.Valid()
  {
    Pad4(st.year) + "-" + Pad2(st.month) + "-" + Pad2(st.day) + "T" + Pad2(st.hour)
      + Pad2(st.minute) + Pad2(st.second) + OffsetText(st.offset)
  }

  // ---- Round trip ----

  lemma {:induction false} SkipAlternatives(i: nat, a: nat, b: nat, s: string, pos: nat)
    requires i < DirectiveCount && a <= b <= AltCount(i) && pos <= |s|
    requires forall c :: a <= c < b ==> !MatchesAt(Alt(i, c), s, pos)
    ensures TryAlternatives(i, a, s, pos) == TryAlternatives(i, b, s, pos)
    decreases b - a
  {
    if a < b {
      SkipAlternatives(i, a + 1, b, s, pos);
    }
  }

  /** When alternative `a` is the first to match and the rest matches after it, that is the match. */
  lemma TakeAlternative(i: nat, a: nat, s: string, pos: nat, g: Groups)
    requires i < DirectiveCount && a < AltCount(i) && pos <= |s|
    requires forall b :: 0 <= b < a ==> !MatchesAt(Alt(i, b), s, pos)
    requires MatchesAt(Alt(i, a), s, pos)
    requires pos + Width(Alt(i, a)) <= |s|
    requires FirstMatch(i + 1, s, pos + Width(Alt(i, a))) == Some(g)
    ensures FirstMatch(i, s, pos) == Some(Groups([s[pos..pos + Width(Alt(i, a))]] + g.texts, g.end))
  {
    SkipAlternatives(i, 0, a, s, pos);
  }

  /** The digits of the zero-padded fields of a valid stamp lie in the ranges the fields above need. */
  lemma PaddedDigits(st: Stamp)
    requires st.Valid()
    ensures var t := Pad2(st.month); (t[0] == '1' && '0' <= t[1] <= '2') || (t[0] == '0' && '1' <= t[1] <= '9')
    ensures var t := Pad2(st.day);
      || (t[0] == '3' && '0' <= t[1] <= '1') || ('1' <= t[0] <= '2' && IsDigit(t[1])) || (t[0] == '0' && '1' <= t[1] <= '9')
    ensures var t := Pad2(st.hour); (t[0] == '2' && '0' <= t[1] <= '3') || ('0' <= t[0] <= '1' && IsDigit(t[1]))
    ensures var t := Pad2(st.minute); '0' <= t[0] <= '5' && IsDigit(t[1])
    ensures var t := Pad2(st.second); '0' <= t[0] <= '5' && IsDigit(t[1])
  {
  }

  /** Removing the two colons separating hours, minutes and seconds. */
  lemma DropColons(p: string, q: string, r: string, z: string)
    requires ':' !in p && ':' !in q && ':' !in r && ':' !in z
    ensures Without(p + ":" + q + ":" + r + z, ':') == p + q + r + z
  {
    assert Without(":", ':') == [];
    WithoutAbsent(p, ':');
    WithoutAbsent(q, ':');
    WithoutAbsent(r, ':');
    WithoutAbsent(z, ':');
    WithoutAppend(p, ":", ':');
    assert Without(p + ":", ':') == p;
    WithoutAppend(p + ":", q, ':');
    assert Without(p + ":" + q, ':') == p + q;
    WithoutAppend(p + ":" + q, ":", ':');
    assert Without(p + ":" + q + ":", ':') == p + q;
    WithoutAppend(p + ":" + q + ":", r, ':');
    assert Without(p + ":" + q + ":" + r, ':') == p + q + r;
    WithoutAppend(p + ":" + q + ":" + r, z, ':');
  }

  lemma DigitsHaveNoColon(t: string)
    requires AllDigits(t)
    ensures ':' !in t
  {
  }

  lemma FormatWithoutColons(st: Stamp)
    requires st.Valid()
    ensures Without(FormatStamp(st), ':') == CompactForm(st)
  {
    var p := Pad4(st.year) + "-" + Pad2(st.month) + "-" + Pad2(st.day) + "T" + Pad2(st.hour);
    DigitsHaveNoColon(Pad4(st.year));
    DigitsHaveNoColon(Pad2(st.month));
    DigitsHaveNoColon(Pad2(st.day));
    DigitsHaveNoColon(Pad2(st.hour));
    DigitsHaveNoColon(Pad2(st.minute));
    DigitsHaveNoColon(Pad2(st.second));
    var z := OffsetText(st.offset);
    DigitsHaveNoColon(z[1..]);
    assert z == [z[0]] + z[1..];
    DropColons(p, Pad2(st.minute), Pad2(st.second), z);
  }

  /** Where each field sits in the compact form. */
  lemma CompactLayout(st: Stamp)
    requires st.Valid()
    ensures var c := CompactForm(st);
      && |c| == 17 + |OffsetText(st.offset)|
      && c[..4] == Pad4(st.year) && c[4] == '-' && c[5..7] == Pad2(st.month) && c[7] == '-'
      && c[8..10] == Pad2(st.day) && c[10] == 'T' && c[11..13] == Pad2(st.hour)
      && c[13..15] == Pad2(st.minute) && c[15..17] == Pad2(st.second) && c[17..] == OffsetText(st.offset)
  {
    var y, mo, d := Pad4(st.year), Pad2(st.month), Pad2(st.day);
    var h, mi, se, z := Pad2(st.hour), Pad2(st.minute), Pad2(st.second), OffsetText(st.offset);
    var c := CompactForm(st);
    var date := y + "-" + mo + "-" + d;
    var time := h + mi + se;
    assert c == date + "T" + time + z;
    assert c[..10] == date && c[10] == 'T' && c[11..17] == time && c[17..] == z;
    assert date[..4] == y && date[5..7] == mo && date[8..10] == d;
    assert time[..2] == h && time[2..4] == mi && time[4..6] == se;
  }

  /** The digits and separators of the compact form, each field in the range its planned alternative covers. */
  predicate CompactShape(c: string)
  {
    && (|c| == 22 || |c| == 24)
    && (c[17] == '+' || c[17] == '-') && IsDigit(c[18]) && IsDigit(c[19]) && '0' <= c[20] <= '5' && IsDigit(c[21])
    && (|c| == 24 ==> '0' <= c[22] <= '5' && IsDigit(c[23]))
    && IsDigit(c[0]) && IsDigit(c[1]) && IsDigit(c[2]) && IsDigit(c[3])
    && c[4] == '-' && c[7] == '-' && c[10] == 'T'
    && ((c[5] == '1' && '0' <= c[6] <= '2') || (c[5] == '0' && '1' <= c[6] <= '9'))
    && (|| (c[8] == '3' && '0' <= c[9] <= '1')
        || ('1' <= c[8] <= '2' && IsDigit(c[9]))
        || (c[8] == '0' && '1' <= c[9] <= '9'))
    && ((c[11] == '2' && '0' <= c[12] <= '3') || ('0' <= c[11] <= '1' && IsDigit(c[12])))
    && '0' <= c[13] <= '5' && IsDigit(c[14]) && '0' <= c[15] <= '5' && IsDigit(c[16])
  }

  /** The compact form of a valid stamp has that shape. */
  lemma CompactFormShape(st: Stamp)
    requires st.Valid()
    ensures CompactShape(CompactForm(st))
  {
    var c := CompactForm(st);
    var z := OffsetText(st.offset);
    CompactLayout(st);
    PaddedDigits(st);
    assert forall k :: 17 <= k < |c| ==> c[k] == z[k - 17];
    assert forall k :: 1 <= k < |z| ==> z[k] == z[1..][k - 1];
    assert forall k :: 0 <= k < 4 ==> c[k] == c[..4][k];
    assert c[5] == c[5..7][0] && c[6] == c[5..7][1];
    assert c[8] == c[8..10][0] && c[9] == c[8..10][1];
    assert c[11] == c[11..13][0] && c[12] == c[11..13][1];
    assert c[13] == c[13..15][0] && c[14] == c[13..15][1];
    assert c[15] == c[15..17][0] && c[16] == c[15..17][1];
  }

  // One lemma per directive: the alternative its field of a text of the
  // compact shape takes, put in front of whatever matches the rest.

  lemma YearFieldStep(c: string, g: Groups)
    requires CompactShape(c) && FirstMatch(1, c, 4) == Some(g)
    ensures FirstMatch(0, c, 0) == Some(Groups([c[0..4]] + g.texts, g.end))
  {
    TakeAlternative(0, 0, c, 0, g);
  }

  /** The '-' after the year. */
  lemma YearDashStep(c: string, g: Groups)
    requires CompactShape(c) && FirstMatch(2, c, 5) == Some(g)
    ensures FirstMatch(1, c, 4) == Some(Groups([c[4..5]] + g.texts, g.end))
  {
    TakeAlternative(1, 0, c, 4, g);
  }

  /** The '-' after the month. */
  lemma MonthDashStep(c: string, g: Groups)
    requires CompactShape(c) && FirstMatch(4, c, 8) == Some(g)
    ensures FirstMatch(3, c, 7) == Some(Groups([c[7..8]] + g.texts, g.end))
  {
    TakeAlternative(3, 0, c, 7, g);
  }

  /** The 'T' between date and time. */
  lemma TimeSeparatorStep(c: string, g: Groups)
    requires CompactShape(c) && FirstMatch(6, c, 11) == Some(g)
    ensures FirstMatch(5, c, 10) == Some(Groups([c[10..11]] + g.texts, g.end))
  {
    TakeAlternative(5, 0, c, 10, g);
  }

  lemma MonthStep(c: string, g: Groups)
    requires CompactShape(c) && FirstMatch(3, c, 7) == Some(g)
    ensures FirstMatch(2, c, 5) == Some(Groups([c[5..7]] + g.texts, g.end))
  {
    TakeAlternative(2, if c[5] == '1' then 0 else 1, c, 5, g);
  }

  lemma DayStep(c: string, g: Groups)
    requires CompactShape(c) && FirstMatch(5, c, 10) == Some(g)
    ensures FirstMatch(4, c, 8) == Some(Groups([c[8..10]] + g.texts, g.end))
  {
    TakeAlternative(4, if c[8] == '3' then 0 else if c[8] == '0' then 2 else 1, c, 8, g);
  }

  lemma HourStep(c: string, g: Groups)
    requires CompactShape(c) && FirstMatch(7, c, 13) == Some(g)
    ensures FirstMatch(6, c, 11) == Some(Groups([c[11..13]] + g.texts, g.end))
  {
    TakeAlternative(6, if c[11] == '2' then 0 else 1, c, 11, g);
  }

  lemma MinuteStep(c: string, g: Groups)
    requires CompactShape(c) && FirstMatch(8, c, 15) == Some(g)
    ensures FirstMatch(7, c, 13) == Some(Groups([c[13..15]] + g.texts, g.end))
  {
    TakeAlternative(7, 0, c, 13, g);
  }

  /** A second below 60 skips the leap-second alternative `6[0-1]`. */
  lemma SecondStep(c: string, g: Groups)
    requires CompactShape(c) && FirstMatch(9, c, 17) == Some(g)
    ensures FirstMatch(8, c, 15) == Some(Groups([c[15..17]] + g.texts, g.end))
  {
    TakeAlternative(8, 1, c, 15, g);
  }

  /** Where the field of directive `i` starts in the compact form; the offset starts at 17. */
  function FieldStart(i: nat): nat
    requires i <= DirectiveCount
  {
    match i
    case 0 => 0
    case 1 => 4
    case 2 => 5
    case 3 => 7
    case 4 => 8
    case 5 => 10
    case 6 => 11
    case 7 => 13
    case 8 => 15
    case _ => 17
  }

  /** The pieces of a text laid out like the compact form, from directive `i` on, the offset last. */
  function FieldsFrom(c: string, i: nat): (r: seq<string>)
    requires i <= DirectiveCount && |c| >= 17
    ensures |r| == DirectiveCount - i + 1
    decreases DirectiveCount - i
  {
    if i == DirectiveCount then [c[17..]] else [c[FieldStart(i)..FieldStart(i + 1)]] + FieldsFrom(c, i + 1)
  }

  /** The offset runs to the end of the text and is the whole `%z` group. */
  lemma MatchOffset(c: string)
    requires CompactShape(c)
    ensures FirstMatch(DirectiveCount, c, 17) == Some(Groups(FieldsFrom(c, DirectiveCount), |c|))
  {
    assert c[17..17 + (|c| - 17)] == c[17..];
  }

  // The compact shape matched from the end backwards: directive `i` takes its
  // field in front of the match of directives `i + 1..`.

  lemma MatchFrom8(c: string)
    requires CompactShape(c)
    ensures FirstMatch(8, c, 15) == Some(Groups(FieldsFrom(c, 8), |c|))
  {
    MatchOffset(c);
    SecondStep(c, Groups(FieldsFrom(c, 9), |c|));
  }

  lemma MatchFrom7(c: string)
    requires CompactShape(c)
    ensures FirstMatch(7, c, 13) == Some(Groups(FieldsFrom(c, 7), |c|))
  {
    MatchFrom8(c);
    MinuteStep(c, Groups(FieldsFrom(c, 8), |c|));
  }

  lemma MatchFrom6(c: string)
    requires CompactShape(c)
    ensures FirstMatch(6, c, 11) == Some(Groups(FieldsFrom(c, 6), |c|))
  {
    MatchFrom7(c);
    HourStep(c, Groups(FieldsFrom(c, 7), |c|));
  }

  lemma MatchFrom5(c: string)
    requires CompactShape(c)
    ensures FirstMatch(5, c, 10) == Some(Groups(FieldsFrom(c, 5), |c|))
  {
    MatchFrom6(c);
    TimeSeparatorStep(c, Groups(FieldsFrom(c, 6), |c|));
  }

  lemma MatchFrom4(c: string)
    requires CompactShape(c)
    ensures FirstMatch(4, c, 8) == Some(Groups(FieldsFrom(c, 4), |c|))
  {
    MatchFrom5(c);
    DayStep(c, Groups(FieldsFrom(c, 5), |c|));
  }

  lemma MatchFrom3(c: string)
    requires CompactShape(c)
    ensures FirstMatch(3, c, 7) == Some(Groups(FieldsFrom(c, 3), |c|))
  {
    MatchFrom4(c);
    MonthDashStep(c, Groups(FieldsFrom(c, 4), |c|));
  }

  lemma MatchFrom2(c: string)
    requires CompactShape(c)
    ensures FirstMatch(2, c, 5) == Some(Groups(FieldsFrom(c, 2), |c|))
  {
    MatchFrom3(c);
    MonthStep(c, Groups(FieldsFrom(c, 3), |c|));
  }

  lemma MatchFrom1(c: string)
    requires CompactShape(c)
    ensures FirstMatch(1, c, 4) == Some(Groups(FieldsFrom(c, 1), |c|))
  {
    MatchFrom2(c);
    YearDashStep(c, Groups(FieldsFrom(c, 2), |c|));
  }

  /** A text of the compact shape is matched field by field, the whole text consumed. */
  lemma MatchFrom0(c: string)
    requires CompactShape(c)
    ensures FirstMatch(0, c, 0) == Some(Groups(FieldsFrom(c, 0), |c|))
  {
    MatchFrom1(c);
    YearFieldStep(c, Groups(FieldsFrom(c, 1), |c|));
  }

  /** Piece `k` of the pieces from directive `i` on. */
  lemma {:induction false} FieldOf(c: string, i: nat, k: nat)
    requires |c| >= 17 && i + k <= DirectiveCount
    ensures FieldsFrom(c, i)[k]
         == if i + k == DirectiveCount then c[17..] else c[FieldStart(i + k)..FieldStart(i + k + 1)]
    decreases k
  {
    if k > 0 {
      FieldOf(c, i + 1, k - 1);
    }
  }

  /** The pieces of the compact form are the padded fields and the offset text. */
  lemma CompactFieldsOf(st: Stamp)
    requires st.Valid()
    ensures |CompactForm(st)| >= 17
    ensures FieldsFrom(CompactForm(st), 0)
         == [Pad4(st.year), "-", Pad2(st.month), "-", Pad2(st.day), "T", Pad2(st.hour),
             Pad2(st.minute), Pad2(st.second), OffsetText(st.offset)]
  {
    var c := CompactForm(st);
    CompactLayout(st);
    assert c[0..4] == c[..4] && c[4..5] == "-" && c[7..8] == "-" && c[10..11] == "T";
    var fields := [Pad4(st.year), "-", Pad2(st.month), "-", Pad2(st.day), "T", Pad2(st.hour),
                   Pad2(st.minute), Pad2(st.second), OffsetText(st.offset)];
    forall k | 0 <= k < |fields|
      ensures FieldsFrom(c, 0)[k] == fields[k]
    {
      FieldOf(c, 0, k);
    }
  }

  /** The compact form is matched field by field, the whole text consumed. */
  lemma MatchCompactForm(st: Stamp)
    requires st.Valid()
    ensures FirstMatch(0, CompactForm(st), 0)
         == Some(Groups([Pad4(st.year), "-", Pad2(st.month), "-", Pad2(st.day), "T", Pad2(st.hour),
                         Pad2(st.minute), Pad2(st.second), OffsetText(st.offset)], |CompactForm(st)|))
  {
    CompactFormShape(st);
    MatchFrom0(CompactForm(st));
    CompactFieldsOf(st);
  }

  /**
   * Round trip: removing the colons from the page's form of a valid stamp
   * and parsing it with strptime gives that stamp back.
   */
  lemma StampRoundTrip(st: Stamp)
    requires st.Valid()
    ensures CompactStampText(Without(FormatStamp(st), ':'))
    ensures Strptime(Without(FormatStamp(st), ':')) == Some(st)
  {
    FormatWithoutColons(st);
    CompactFormAlphabet(st);
    ParseCompactForm(st);
  }

  lemma CompactFormAlphabet(st: Stamp)
    requires st.Valid()
    ensures CompactStampText(CompactForm(st))
  {
    var c := CompactForm(st);
    var z := OffsetText(st.offset);
    assert c[17..] == z;
    forall k | 0 <= k < |c|
      ensures IsStampChar(c[k]) && c[k] != ':'
    {
      if k >= 18 {
        assert c[k] == z[k - 17] && IsDigit(z[1..][k - 18]);
      }
    }
  }

  lemma ParseCompactForm(st: Stamp)
    requires st.Valid()
    requires CompactStampText(CompactForm(st))
    ensures Strptime(CompactForm(st)) == Some(st)
  {
    MatchCompactForm(st);
  }

  /** 2022-06-01T10:00:00 at two hours east of UTC, as the page writes it and as an instant. */
  lemma ExampleStamp()
    ensures Stamp(2022, 6, 1, 10, 0, 0, 7200).Valid()
    ensures FormatStamp(Stamp(2022, 6, 1, 10, 0, 0, 7200)) == "2022-06-01T10:00:00+0200"
    ensures Stamp(2022, 6, 1, 10, 0, 0, 7200).Timestamp() == 1654070400
  {
    ExampleFields();
    var st := Stamp(2022, 6, 1, 10, 0, 0, 7200);
    assert FormatStamp(st) == "2022" + "-" + "06" + "-" + "01" + "T" + "10" + ":" + "00" + ":" + "00" + "+0200";
    assert Calendar.Ordinal(2022, 6, 1) == 738307;
  }

  /** The padded fields of the example. */
  lemma ExampleFields()
    ensures Pad4(2022) == "2022"
    ensures Pad2(6) == "06" && Pad2(1) == "01" && Pad2(10) == "10" && Pad2(0) == "00"
    ensures OffsetText(7200) == "+0200"
  {
    assert Pad2(2) == "02";
    assert Pad2(20) == "20";
    assert Pad2(22) == "22";
  }
}
