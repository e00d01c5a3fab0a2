/**
 * `get_lot_details`: the lot id and the expiry instant read from the text of
 * the listing page.
 *
 * The page is searched for the first `"activeLotId":"<digits>"` and the
 * first `"tsExpires":"<[0-9\-T:\+]+>"`. The id is what remains of the first
 * match once every non-digit is deleted; the expiry is the first
 * `[0-9]+[0-9\-T:\+]+` inside the second match, without its colons, read by
 * `strptime` and turned into epoch seconds. A missing match makes `.group()`
 * raise, and so does a failed parse: there is no partial result.
 */
module LotDetails {
  import opened Wrappers
  import opened Text
  import Expiry

  /** What the page request yields: the status code and the body text. */
  datatype Page = Page(status: int, text: string)

  /** The lot under auction and the instant its auction ends, in epoch seconds. */
  datatype Lot = Lot(id: nat, expires: int)

  /** Why no `(lotid, endts)` pair is produced. */
  datatype LotError =
    | PageStatus(code: int)      // not 200: the function returns None and the caller's unpacking raises
    | NoLotIdMarker              // `raw_lotid` is None: `.group()` raises AttributeError
    | NoExpiryMarker             // `raw_endts` is None: `.group()` raises AttributeError
    | NoExpiryToken              // the inner search finds nothing: `.group()` raises AttributeError
    | BadExpiry                  // `strptime` or `datetime` raises ValueError

  /** The text before each marker's value. */
  const LotIdOpen: string := "\"activeLotId\":\""
  const ExpiryOpen: string := "\"tsExpires\":\""

  /** The two character classes of the marker values. */
  datatype CharClass = Digits | StampChars

  predicate InClass(k: CharClass, c: char)
  {
    match k
    case Digits => IsDigit(c)
    case StampChars => Expiry.IsStampChar(c)
  }

  /** The length of the longest run of class-`k` characters starting at `i`. */
  function RunLength(t: string, i: nat, k: CharClass): (n: nat)
    requires i <= |t|
    ensures i + n <= |t|
    ensures forall j :: i <= j < i + n ==> InClass(k, t[j])
    ensures i + n == |t| || !InClass(k, t[i + n])
    decreases |t| - i
  {
    if i < |t| && InClass(k, t[i]) then 1 + RunLength(t, i + 1, k) else 0
  }

  /**
   * The pattern `open[k]+"` matches at `i`. A closing quote belongs to
   * neither class, so the run it follows is the longest one: backtracking to
   * a shorter run would put a class character where the quote must be.
   */
  predicate MarkerAt(t: string, i: nat, open: string, k: CharClass)
  {
    && i + |open| <= |t| && t[i..i + |open|] == open
    && var n := RunLength(t, i + |open|, k);
       n >= 1 && i + |open| + n < |t| && t[i + |open| + n] == '"'
  }

  /**
   * The regular expression's own reading: `open`, then some positive number
   * `m` of class-`k` characters, then a quote.
   */
  predicate MarkerWith(t: string, i: nat, open: string, k: CharClass, m: nat)
  {
    && i + |open| + m < |t| && t[i..i + |open|] == open && m >= 1
    && (forall j :: i + |open| <= j < i + |open| + m ==> InClass(k, t[j]))
    && t[i + |open| + m] == '"'
  }

  /** A run of class-`k` characters that the text ends or a non-class character closes is the longest run. */
  lemma {:induction false} RunLengthIs(t: string, i: nat, k: CharClass, m: nat)
    requires i + m <= |t|
    requires forall j :: i <= j < i + m ==> InClass(k, t[j])
    requires i + m == |t| || !InClass(k, t[i + m])
    ensures RunLength(t, i, k) == m
    decreases m
  {
    if m > 0 {
      RunLengthIs(t, i + 1, k, m - 1);
    }
  }

  /** A match of `open[k]+"` has exactly one length of run: the longest. */
  lemma MarkerAtMeans(t: string, i: nat, open: string, k: CharClass, m: nat)
    ensures MarkerWith(t, i, open, k, m) ==> i + |open| <= |t| && m == RunLength(t, i + |open|, k) && MarkerAt(t, i, open, k)
    ensures MarkerAt(t, i, open, k) ==> MarkerWith(t, i, open, k, RunLength(t, i + |open|, k))
  {
    if MarkerWith(t, i, open, k, m) {
      assert !InClass(k, t[i + |open| + m]);
      RunLengthIs(t, i + |open|, k, m);
    }
  }

  /** `re.search`: the leftmost position at or after `from` where the marker matches. */
  function Search(t: string, from: nat, open: string, k: CharClass): (r: Option<nat>)
    requires from <= |t|
    ensures r.Some? ==> from <= r.value <= |t| && MarkerAt(t, r.value, open, k)
    ensures r.Some? ==> forall j :: from <= j < r.value ==> !MarkerAt(t, j, open, k)
    ensures r.None? ==> forall j :: from <= j <= |t| ==> !MarkerAt(t, j, open, k)
    decreases |t| - from
  {
    if MarkerAt(t, from, open, k) then Some(from)
    else if from == |t| then None
    else Search(t, from + 1, open, k)
  }

  /** `.group()` of a marker match at `i`: the opening, the run and the closing quote. */
  function MatchText(t: string, i: nat, open: string, k: CharClass): (m: string)
    requires MarkerAt(t, i, open, k)
    ensures m == open + t[i + |open|..i + |open| + RunLength(t, i + |open|, k)] + "\""
  {
    var n := RunLength(t, i + |open|, k);
    assert t[i..i + |open| + n + 1] == t[i..i + |open|] + t[i + |open|..i + |open| + n] + [t[i + |open| + n]];
    t[i..i + |open| + n + 1]
  }

  /**
   * `[0-9]+[0-9\-T:\+]+` can match at `j`: a digit and at least one more
   * stamp character after it (digits are stamp characters too).
   */
  predicate TokenAt(m: string, j: nat)
  {
    j + 1 < |m| && IsDigit(m[j]) && Expiry.IsStampChar(m[j + 1])
  }

  /** The leftmost position at or after `from` where the token pattern can match. */
  function SearchToken(m: string, from: nat): (r: Option<nat>)
    requires from <= |m|
    ensures r.Some? ==> from <= r.value && TokenAt(m, r.value)
    ensures r.Some? ==> forall j :: from <= j < r.value ==> !TokenAt(m, j)
    ensures r.None? ==> forall j :: from <= j <= |m| ==> !TokenAt(m, j)
    decreases |m| - from
  {
    if TokenAt(m, from) then Some(from)
    else if from == |m| then None
    else SearchToken(m, from + 1)
  }

  /**
   * The token found at `j`. Backtracking takes the longest digit run and then
   * the longest stamp run after it; when the digit run ends the stamp run, it
   * gives back one digit. Either way the match ends where the stamp
   * characters from `j` end.
   */
  function TokenText(m: string, j: nat): (tok: string)
    requires TokenAt(m, j)
    ensures |tok| >= 2 && IsDigit(tok[0])
    ensures forall q :: 0 <= q < |tok| ==> Expiry.IsStampChar(tok[q])
    ensures j + |tok| <= |m| && tok == m[j..j + |tok|]
    ensures j + |tok| == |m| || !Expiry.IsStampChar(m[j + |tok|])
  {
    m[j..j + RunLength(m, j, StampChars)]
  }

  /**
   * The two groups of `[0-9]+[0-9\-T:\+]+` in the token: the first takes the
   * longest digit run from `j`, or one digit less when that run is the whole
   * token, and the second takes the rest, at least one character.
   */
  lemma TokenGroups(m: string, j: nat)
    requires TokenAt(m, j)
    ensures var tok := TokenText(m, j); var d := RunLength(m, j, Digits);
      && 1 <= d <= |tok|
      && var p := if d < |tok| then d else d - 1;
         1 <= p < |tok| && AllDigits(tok[..p])
  {
    var tok := TokenText(m, j);
    assert tok[0] == m[j];
  }

  /** The expiry read from the `tsExpires` match text, in epoch seconds. */
  function ExpiryOf(m: string): (r: Result<int, LotError>)
    ensures r == Failure(NoExpiryToken) <==> forall j :: 0 <= j <= |m| ==> !TokenAt(m, j)
    ensures r.Failure? ==> r.error == NoExpiryToken || r.error == BadExpiry
  {
    match SearchToken(m, 0)
    case None => Failure(NoExpiryToken)
    case Some(j) =>
      var compact := Without(TokenText(m, j), ':');
      CompactAfterColons(TokenText(m, j));
      match Expiry.Strptime(compact)
      case None => Failure(BadExpiry)
      case Some(st) => Success(st.Timestamp())
  }

  /** Removing the colons from stamp characters leaves text the parser accepts. */
  lemma CompactAfterColons(s: string)
    requires forall q :: 0 <= q < |s| ==> Expiry.IsStampChar(s[q])
    ensures Expiry.CompactStampText(Without(s, ':'))
  {
    var r := Without(s, ':');
    forall q | 0 <= q < |r|
      ensures Expiry.IsStampChar(r[q]) && r[q] != ':'
    {
      assert r[q] in r;
      assert r[q] in s;
      var p :| 0 <= p < |s| && s[p] == r[q];
    }
  }

  /** `get_lot_details(url)` on the page that request returns. */
  function GetLotDetails(page: Page): (r: Result<Lot, LotError>)
    ensures page.status != 200 <==> r == Failure(PageStatus(page.status))
  {
    if page.status != 200 then Failure(PageStatus(page.status))
    else
      var t := page.text;
      match Search(t, 0, LotIdOpen, Digits)
      case None => Failure(NoLotIdMarker)
      case Some(i) =>
        match ExpiryIn(t)
        case Failure(err) => Failure(err)
        case Success(ts) => Success(Lot(LotIdAt(t, i), ts))
  }

  /** `int(re.sub(r"[^0-9]", "", raw_lotid.group()))` for the lot id marker at `i`. */
  function LotIdAt(t: string, i: nat): (id: nat)
    requires MarkerAt(t, i, LotIdOpen, Digits)
    ensures id == DecimalValue(LotIdRun(t, i))
  {
    StripMarker(LotIdRun(t, i));
    DecimalValue(KeepDigits(MatchText(t, i, LotIdOpen, Digits)))
  }

  /** The expiry read from the first `tsExpires` marker of the page, in epoch seconds. */
  function ExpiryIn(t: string): (r: Result<int, LotError>)
    ensures r.Failure? ==> r.error != NoLotIdMarker && !r.error.PageStatus?
  {
    match Search(t, 0, ExpiryOpen, StampChars)
    case None => Failure(NoExpiryMarker)
    case Some(e) => ExpiryOf(MatchText(t, e, ExpiryOpen, StampChars))
  }

  // ---- Properties ----

  /** The digits between the opening of the lot id marker at `i` and its closing quote. */
  function LotIdRun(t: string, i: nat): (run: string)
    requires MarkerAt(t, i, LotIdOpen, Digits)
    ensures |run| >= 1 && AllDigits(run)
    ensures MatchText(t, i, LotIdOpen, Digits) == LotIdOpen + run + "\""
  {
    t[i + |LotIdOpen|..i + |LotIdOpen| + RunLength(t, i + |LotIdOpen|, Digits)]
  }

  /**
   * The lot id is the decimal value of the digit run in the first
   * `"activeLotId"` marker: the marker's own text holds no digit, so deleting
   * the non-digits leaves exactly that run.
   */
  lemma LotIdIsFirstRun(page: Page)
    requires GetLotDetails(page).Success?
    ensures Search(page.text, 0, LotIdOpen, Digits).Some?
    ensures GetLotDetails(page).value.id == DecimalValue(LotIdRun(page.text, Search(page.text, 0, LotIdOpen, Digits).value))
  {
    var t := page.text;
    var i := Search(t, 0, LotIdOpen, Digits).value;
    assert GetLotDetails(page).value.id == LotIdAt(t, i);
    StripMarker(LotIdRun(t, i));
  }

  /** The marker's opening and its closing quote hold no digit. */
  lemma StripMarker(run: string)
    requires AllDigits(run)
    ensures KeepDigits(LotIdOpen + run + "\"") == run
  {
    KeepDigitsAppend(LotIdOpen + run, "\"");
    KeepDigitsAppend(LotIdOpen, run);
    KeepDigitsOf(LotIdOpen);
    KeepDigitsOf(run);
    KeepDigitsOf("\"");
  }

  /** The page yields nothing when, and only when, one of the conditions that make it raise holds. */
  lemma MissingMarkers(page: Page)
    requires page.status == 200
    ensures GetLotDetails(page) == Failure(NoLotIdMarker)
        <==> forall j :: 0 <= j <= |page.text| ==> !MarkerAt(page.text, j, LotIdOpen, Digits)
    ensures GetLotDetails(page) == Failure(NoExpiryMarker)
        <==> && (exists j :: 0 <= j <= |page.text| && MarkerAt(page.text, j, LotIdOpen, Digits))
             && (forall j :: 0 <= j <= |page.text| ==> !MarkerAt(page.text, j, ExpiryOpen, StampChars))
  {
    var t := page.text;
    var r := Search(t, 0, LotIdOpen, Digits);
    if r.Some? {
      assert MarkerAt(t, r.value, LotIdOpen, Digits);
    }
    var e := Search(t, 0, ExpiryOpen, StampChars);
    if e.Some? {
      assert MarkerAt(t, e.value, ExpiryOpen, StampChars);
      ExpiryNeverMissing(MatchText(t, e.value, ExpiryOpen, StampChars));
    }
  }

  /** Reading an expiry match never reports a missing marker or a bad page. */
  lemma ExpiryNeverMissing(m: string)
    ensures ExpiryOf(m) != Failure(NoExpiryMarker) && ExpiryOf(m) != Failure(NoLotIdMarker)
    ensures forall c :: ExpiryOf(m) != Failure(PageStatus(c))
  {
  }

  /**
   * The expiry written the way the listing page writes it,
   * `YYYY-MM-DDTHH:MM:SS±HHMM`, is read back as that instant.
   */
  lemma FormattedExpiry(st: Expiry.Stamp)
    requires st.Valid()
    ensures ExpiryOf(ExpiryOpen + Expiry.FormatStamp(st) + "\"") == Success(st.Timestamp())
  {
    var body := Expiry.FormatStamp(st);
    var m := ExpiryOpen + body + "\"";
    FormattedBody(st);
    assert forall j :: 0 <= j < |ExpiryOpen| ==> !IsDigit(m[j]);
    assert TokenAt(m, |ExpiryOpen|);
    assert SearchToken(m, 0) == Some(|ExpiryOpen|) by {
      TokenSearchSkips(m, 0, |ExpiryOpen|);
    }
    BodyRun(m, |ExpiryOpen|, body);
    assert TokenText(m, |ExpiryOpen|) == body;
    Expiry.StampRoundTrip(st);
  }

  /** An example: ten o'clock local time at two hours east of UTC is 08:00 UTC. */
  lemma ExpiryExample()
    ensures ExpiryOf(ExpiryOpen + "2022-06-01T10:00:00+0200" + "\"") == Success(1654070400)
  {
    var st := Expiry.Stamp(2022, 6, 1, 10, 0, 0, 7200);
    Expiry.ExampleStamp();
    FormattedExpiry(st);
  }

  /** `re.search` finds a marker at `i` when there is none before it. */
  lemma SearchFindsFirst(t: string, open: string, k: CharClass, i: nat)
    requires i <= |t| && MarkerAt(t, i, open, k)
    requires forall j :: 0 <= j < i ==> !MarkerAt(t, j, open, k)
    ensures Search(t, 0, open, k) == Some(i)
  {
  }

  /**
   * A page whose first lot id marker is at `i` and whose first expiry marker,
   * at `e`, holds a stamp in the page's form yields the digit run of the
   * first and the instant of the second.
   */
  lemma PageWithMarkers(t: string, i: nat, e: nat, st: Expiry.Stamp)
    requires st.Valid()
    requires i <= |t| && MarkerAt(t, i, LotIdOpen, Digits)
    requires forall j :: 0 <= j < i ==> !MarkerAt(t, j, LotIdOpen, Digits)
    requires e <= |t| && MarkerAt(t, e, ExpiryOpen, StampChars)
    requires forall j :: 0 <= j < e ==> !MarkerAt(t, j, ExpiryOpen, StampChars)
    requires MatchText(t, e, ExpiryOpen, StampChars) == ExpiryOpen + Expiry.FormatStamp(st) + "\""
    ensures GetLotDetails(Page(200, t)) == Success(Lot(DecimalValue(LotIdRun(t, i)), st.Timestamp()))
  {
    SearchFindsFirst(t, LotIdOpen, Digits, i);
    SearchFindsFirst(t, ExpiryOpen, StampChars, e);
    FormattedExpiry(st);
    StripMarker(LotIdRun(t, i));
  }

  /** The page's form of a stamp: stamp characters, starting with two digits. */
  lemma FormattedBody(st: Expiry.Stamp)
    requires st.Valid()
    ensures var body := Expiry.FormatStamp(st);
      |body| >= 2 && IsDigit(body[0]) && IsDigit(body[1]) && forall q :: 0 <= q < |body| ==> Expiry.IsStampChar(body[q])
  {
    Expiry.FormatAlphabet(st);
  }

  /** No position before `to` can start a token when none of them holds a digit. */
  lemma {:induction false} TokenSearchSkips(m: string, from: nat, to: nat)
    requires from <= to <= |m| && TokenAt(m, to)
    requires forall j :: from <= j < to ==> !IsDigit(m[j])
    ensures SearchToken(m, from) == Some(to)
    decreases (to as int) - (from as int)
  {
    if from < to {
      TokenSearchSkips(m, from + 1, to);
    }
  }

  /** A run of stamp characters closed by a quote is a maximal run. */
  lemma BodyRun(m: string, i: nat, body: string)
    requires i + |body| < |m| && m[i..i + |body|] == body && m[i + |body|] == '"'
    requires forall q :: 0 <= q < |body| ==> Expiry.IsStampChar(body[q])
    ensures RunLength(m, i, StampChars) == |body|
  {
    forall j | i <= j < i + |body|
      ensures InClass(StampChars, m[j])
    {
      assert m[j] == body[j - i];
    }
    RunLengthIs(m, i, StampChars, |body|);
  }
}
