/**
 * The per-listing CSV log of winning bids: a header written when the file is
 * first created, then one comma-joined row per recorded winner.
 *
 * The file is its sequence of lines, each written with a trailing newline;
 * `None` while the file does not exist. A text written with newlines inside
 * it becomes several lines, split at those newlines: nothing is escaped.
 */
module ResultLog {
  import opened Wrappers
  import opened Text
  import opened BidStatus

  const Header: string := "Timestamp,firstName,lastName,bid,bidcount"

  /** `str(v)`: only a string can carry a comma, and an integer reads back as itself. */
  function PyText(v: PyValue): (t: string)
    ensures ',' in t ==> v.PyStr?
    ensures v.PyInt? ==> ReadInt(t) == Some(v.i)
  {
    match v
    case PyNone => "None"
    case PyStr(s) => s
    case PyInt(i) => IntTextPlain(i); IntTextRoundTrip(i); IntText(i)
  }

  /** `",".join(str(i) for i in [msts, first_name, last_name, bid, bidcount])`. */
  function Row(msts: int, top: map<string, PyValue>, bidCount: nat): string
    requires FirstName in top && LastName in top && BidKey in top
  {
    Join(',', RowFields(msts, top, bidCount))
  }

  function RowFields(msts: int, top: map<string, PyValue>, bidCount: nat): (fields: seq<string>)
    requires FirstName in top && LastName in top && BidKey in top
    ensures |fields| == 5
  {
    [IntText(msts), PyText(top[FirstName]), PyText(top[LastName]), PyText(top[BidKey]), IntText(bidCount)]
  }

  /** The lines of the file before the row: the header alone when there was no file. */
  function Before(lines: Option<seq<string>>): seq<string>
  {
    if lines.None? then [Header] else lines.value
  }

  /**
   * The lines after writing `row` and a newline: the header first when there
   * was no file, then the row's text, one line per newline it holds.
   */
  function WithRow(lines: Option<seq<string>>, row: string): (r: seq<string>)
    ensures |r| == |Before(lines)| + multiset(row)['\n'] + 1
    ensures r[..|Before(lines)|] == Before(lines)
    ensures Join('\n', r[|Before(lines)|..]) == row
    ensures '\n' !in row ==> r == Before(lines) + [row]
  {
    var added := Split('\n', row);
    SplitCount('\n', row);
    JoinSplit('\n', row);
    assert '\n' !in row ==> added == [row] by {
      if '\n' !in row {
        SplitNone('\n', row);
      }
    }
    assert (Before(lines) + added)[|Before(lines)|..] == added;
    Before(lines) + added
  }

  /** The log file `output/<name>.csv`. */
  class ResultFile {
    var lines: Option<seq<string>>

    constructor (existing: Option<seq<string>>)
      ensures lines == existing
    {
      lines := existing;
    }

    /**
     * If the file does not exist, create it and write the header line; then
     * open it for appending and write the row and a newline.
     */
    method AppendRow(row: string)
      modifies this
      ensures lines == Some(WithRow(old(lines), row))
    {
      if lines.None? {
        lines := Some([Header]);
      }
      lines := Some(lines.value + Split('\n', row));
    }
  }

  // ---- Properties ----

  /** Digits and a minus sign: no comma in the text of an integer. */
  lemma {:induction false} NatTextNoComma(n: nat)
    ensures ',' !in NatText(n)
    decreases n
  {
    if n >= 10 {
      NatTextNoComma(n / 10);
    }
  }

  /** Nor a newline: the text of an integer is one field of one line. */
  lemma IntTextPlain(i: int)
    ensures ',' !in IntText(i) && '\n' !in IntText(i)
  {
    if i < 0 {
      NatTextNoComma(-i);
    } else {
      NatTextNoComma(i);
    }
  }

  /**
   * When no entry of the top bid holds a comma, splitting a row at its commas
   * gives back its five fields, and the timestamp and the bid count read back
   * as numbers.
   */
  lemma RowRoundTrip(msts: int, top: map<string, PyValue>, bidCount: nat)
    requires FirstName in top && LastName in top && BidKey in top
    requires ',' !in PyText(top[FirstName]) && ',' !in PyText(top[LastName]) && ',' !in PyText(top[BidKey])
    ensures Split(',', Row(msts, top, bidCount)) == RowFields(msts, top, bidCount)
    ensures ReadInt(Split(',', Row(msts, top, bidCount))[0]) == Some(msts)
    ensures ReadInt(Split(',', Row(msts, top, bidCount))[4]) == Some(bidCount)
  {
    IntTextPlain(msts);
    IntTextPlain(bidCount);
    SplitJoin(',', RowFields(msts, top, bidCount));
    IntTextRoundTrip(msts);
    IntTextRoundTrip(bidCount);
  }

  /**
   * A first name holding a comma is not quoted: splitting the row then gives
   * six fields, the name's two halves in the place of one.
   */
  lemma CommaInNameSplitsRow(msts: int, top: map<string, PyValue>, bidCount: nat, a: string, b: string)
    requires FirstName in top && LastName in top && BidKey in top
    requires top[FirstName] == PyStr(a + "," + b) && ',' !in a && ',' !in b
    requires ',' !in PyText(top[LastName]) && ',' !in PyText(top[BidKey])
    ensures Split(',', Row(msts, top, bidCount))
         == [IntText(msts), a, b, PyText(top[LastName]), PyText(top[BidKey]), IntText(bidCount)]
  {
    var tail := [PyText(top[LastName]), PyText(top[BidKey]), IntText(bidCount)];
    assert RowFields(msts, top, bidCount) == [IntText(msts)] + ([a + [','] + b] + tail);
    JoinCons(',', IntText(msts), [a + [','] + b] + tail);
    JoinMerge(',', a, b, tail);
    JoinCons(',', IntText(msts), [a, b] + tail);
    var fields := [IntText(msts), a, b, PyText(top[LastName]), PyText(top[BidKey]), IntText(bidCount)];
    assert [IntText(msts)] + ([a, b] + tail) == fields;
    IntTextPlain(msts);
    IntTextPlain(bidCount);
    SplitJoin(',', fields);
  }

  /** A row never reads as the header: it starts with the timestamp's digit or minus sign. */
  lemma RowIsNotHeader(msts: int, top: map<string, PyValue>, bidCount: nat)
    requires FirstName in top && LastName in top && BidKey in top
    ensures Row(msts, top, bidCount) != Header
  {
    var fields := RowFields(msts, top, bidCount);
    assert Row(msts, top, bidCount) == fields[0] + [','] + Join(',', fields[1..]);
    assert Row(msts, top, bidCount)[0] == IntText(msts)[0];
  }

  /** When no entry of the top bid holds a newline, the row is one line of the file. */
  lemma RowIsOneLine(msts: int, top: map<string, PyValue>, bidCount: nat)
    requires FirstName in top && LastName in top && BidKey in top
    requires '\n' !in PyText(top[FirstName]) && '\n' !in PyText(top[LastName]) && '\n' !in PyText(top[BidKey])
    ensures '\n' !in Row(msts, top, bidCount)
  {
    IntTextPlain(msts);
    IntTextPlain(bidCount);
    JoinAvoids(',', RowFields(msts, top, bidCount), '\n');
  }

  /**
   * Recording a row whose entries hold no newline adds a header only to a
   * file that did not exist: an existing file never gets a second one.
   */
  lemma HeaderOnlyOnCreate(lines: Option<seq<string>>, msts: int, top: map<string, PyValue>, bidCount: nat)
    requires FirstName in top && LastName in top && BidKey in top
    requires '\n' !in PyText(top[FirstName]) && '\n' !in PyText(top[LastName]) && '\n' !in PyText(top[BidKey])
    ensures var after := WithRow(lines, Row(msts, top, bidCount));
      multiset(after)[Header] == if lines.None? then 1 else multiset(lines.value)[Header]
  {
    RowIsNotHeader(msts, top, bidCount);
    RowIsOneLine(msts, top, bidCount);
  }

  /** The row's text, regrouped around the two newlines of the names in `NamesCanForgeHeader`. */
  lemma ForgedRowRegroup(m: string, t: string, f: string, b: string, c: string)
    ensures m + "," + (("\n" + t) + "," + ((f + "\n") + "," + (b + "," + c)))
         == (m + ",") + "\n" + ((t + "," + f) + "\n" + ("," + b + "," + c))
  {
  }

  /** The row written for the names of `NamesCanForgeHeader`: the header between two newlines. */
  lemma ForgedRow(msts: int, top: map<string, PyValue>, bidCount: nat, t: string, f: string)
    requires FirstName in top && LastName in top && BidKey in top
    requires t + "," + f == Header
    requires top[FirstName] == PyStr("\n" + t) && top[LastName] == PyStr(f + "\n")
    ensures Row(msts, top, bidCount)
         == (IntText(msts) + ",") + "\n" + (Header + "\n" + ("," + PyText(top[BidKey]) + "," + IntText(bidCount)))
  {
    var m, b, c := IntText(msts), PyText(top[BidKey]), IntText(bidCount);
    var n1, n2 := "\n" + t, f + "\n";
    assert RowFields(msts, top, bidCount) == [m] + ([n1] + ([n2] + ([b] + [c])));
    JoinCons(',', b, [c]);
    JoinCons(',', n2, [b] + [c]);
    JoinCons(',', n1, [n2] + ([b] + [c]));
    JoinCons(',', m, [n1] + ([n2] + ([b] + [c])));
    ForgedRowRegroup(m, t, f, b, c);
  }

  /** Two newlines between three newline-free texts make three lines. */
  lemma ThreeLines(p: string, h: string, q: string)
    requires '\n' !in p && '\n' !in h && '\n' !in q
    ensures Split('\n', p + "\n" + (h + "\n" + q)) == [p, h, q]
  {
    SplitAtFirst('\n', p, h + "\n" + q);
    SplitAtFirst('\n', h, q);
    SplitNone('\n', q);
  }

  /** The lines the row of `NamesCanForgeHeader` adds: the header between two others. */
  lemma ForgedLines(lines: seq<string>, msts: int, top: map<string, PyValue>, bidCount: nat, t: string, f: string)
    requires FirstName in top && LastName in top && BidKey in top
    requires t + "," + f == Header && '\n' !in t && '\n' !in f
    requires top[FirstName] == PyStr("\n" + t) && top[LastName] == PyStr(f + "\n")
    requires '\n' !in PyText(top[BidKey])
    ensures WithRow(Some(lines), Row(msts, top, bidCount))
         == lines + [IntText(msts) + ",", Header, "," + PyText(top[BidKey]) + "," + IntText(bidCount)]
  {
    IntTextPlain(msts);
    IntTextPlain(bidCount);
    var p, q := IntText(msts) + ",", "," + PyText(top[BidKey]) + "," + IntText(bidCount);
    ForgedRow(msts, top, bidCount, t, f);
    HeaderHasNoNewline(t, f);
    ThreeLines(p, Header, q);
  }

  /**
   * Names are written unescaped, so names holding newlines can write a line
   * equal to the header into an existing file. With the header split at one
   * of its commas into `t` and `f` (say "Timestamp" and
   * "firstName,lastName,bid,bidcount"), a first name "\n" + t and a last name
   * f + "\n" add three lines, the middle one the header.
   */
  lemma NamesCanForgeHeader(lines: seq<string>, msts: int, top: map<string, PyValue>, bidCount: nat, t: string, f: string)
    requires FirstName in top && LastName in top && BidKey in top
    requires t + "," + f == Header && '\n' !in t && '\n' !in f
    requires top[FirstName] == PyStr("\n" + t) && top[LastName] == PyStr(f + "\n")
    requires '\n' !in PyText(top[BidKey])
    ensures var after := WithRow(Some(lines), Row(msts, top, bidCount));
      && |after| == |lines| + 3 && after[|lines| + 1] == Header
      && multiset(after)[Header] == multiset(lines)[Header] + 1
  {
    var p, q := IntText(msts) + ",", "," + PyText(top[BidKey]) + "," + IntText(bidCount);
    ForgedLines(lines, msts, top, bidCount, t, f);
    NotHeader(p);
    NotHeader(q);
    OneMore(lines, p, Header, q);
  }

  lemma HeaderHasNoNewline(t: string, f: string)
    requires t + "," + f == Header && '\n' !in t && '\n' !in f
    ensures '\n' !in Header
  {
    assert '\n' !in t + "," + f;
  }

  /** Three lines of which only the middle one is `h` add one copy of `h`. */
  lemma OneMore(lines: seq<string>, p: string, h: string, q: string)
    requires p != h && q != h
    ensures multiset(lines + [p, h, q])[h] == multiset(lines)[h] + 1
  {
    assert multiset(lines + [p, h, q]) == multiset(lines) + multiset([p, h, q]);
  }

  /** The header starts with `T`. */
  lemma NotHeader(x: string)
    requires |x| > 0 && x[0] != 'T'
    ensures x != Header
  {
    assert Header[0] == 'T';
  }
}
