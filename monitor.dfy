/**
 * One auction cycle of `main`: read the lot, then poll its bidding status
 * until a winner is recorded in the CSV log.
 *
 * The clock reading `nowts` is taken once, before the cycle, and given here
 * in whole microseconds. What `update_lot` returns is given as a sequence,
 * one entry per poll (`BidStatus.UpdateLot` says how each entry arises from a
 * reply); running out of entries ends the model of the loop (the program
 * itself would keep polling). An exception ends the process: the `except:`
 * handler around the loop logs it and raises it again.
 */
module Monitor {
  import opened Wrappers
  import opened Text
  import opened BidStatus
  import opened ResultLog
  import LotDetails

  /** `int(nowts * 1000)`: milliseconds, truncated toward zero. */
  function Millis(nowMicros: int): (ms: int)
    ensures nowMicros >= 0 ==> 0 <= ms * 1000 <= nowMicros < (ms + 1) * 1000
    ensures nowMicros < 0 ==> (ms - 1) * 1000 < nowMicros <= ms * 1000 <= 0
  {
    if nowMicros >= 0 then nowMicros / 1000 else -((-nowMicros) / 1000)
  }

  /** The status URL, with the millisecond stamp in it twice. */
  function StatusUrl(msts: int): string
  {
    "https://www.vakantieveilingen.nl/api.json?" + IntText(msts) + "&m=getLotDetails&v=" + IntText(msts) + "&js=1"
  }

  /**
   * Each millisecond stamp gives its own status URL: the stamp can be read
   * back from the URL.
   */
  lemma StatusUrlInjective(a: int, b: int)
    ensures StatusUrl(a) == StatusUrl(b) ==> a == b
  {
    if StatusUrl(a) == StatusUrl(b) {
      SameFiller("https://www.vakantieveilingen.nl/api.json?", "&m=getLotDetails&v=", "&js=1", IntText(a), IntText(b));
      IntTextRoundTrip(a);
      IntTextRoundTrip(b);
    }
  }

  /** Two texts put into the same two gaps of a template that give the same string are equal. */
  lemma SameFiller(head: string, mid: string, tail: string, x: string, y: string)
    requires head + x + mid + x + tail == head + y + mid + y + tail
    ensures x == y
  {
    var u := head + x + mid + x + tail;
    var v := head + y + mid + y + tail;
    assert |u| == |head| + 2 * |x| + |mid| + |tail|;
    assert |v| == |head| + 2 * |y| + |mid| + |tail|;
    assert u[|head|..|head| + |x|] == x;
    assert v[|head|..|head| + |y|] == y;
  }

  /** What the loop does to the outside world, in order. */
  datatype Event =
    | Poll(lotId: nat, url: string)   // `update_lot(lotid, url)`
    | Sleep(micros: int)              // `time.sleep(timediff * 60)`

  /** Why the process ends with an exception. */
  datatype Crash =
    | LotUnavailable(error: LotDetails.LotError)   // `get_lot_details` raised, or returned None and unpacking it raised
    | NoStatus                                       // `update_lot` returned None: unpacking it raises TypeError
    | NegativeSleep                                  // the expiry came before the startup time `nowts`: `time.sleep` raises ValueError

  datatype Outcome =
    | Won(winner: Snapshot)   // the snapshot whose row is appended to the log; the loop ends
    | GaveUp                  // the `else` branch: no winner and an empty top bid
    | Crashed(crash: Crash)
    | OutOfReplies            // no more `update_lot` results to poll with

  /**
   * The outcome and the events of the inner loop when successive calls of
   * `update_lot` return `fetched`, in order, and every poll uses the same `msts`.
   */
  function Polling(lotId: nat, msts: int, sleepMicros: int, fetched: seq<Option<Snapshot>>): (Outcome, seq<Event>)
    decreases |fetched|
  {
    if fetched == [] then (OutOfReplies, [])
    else
      var poll := Poll(lotId, StatusUrl(msts));
      match fetched[0]
      case None => (Crashed(NoStatus), [poll])
      case Some(s) =>
        if s.hasWinner then (Won(s), [poll])
        else if |s.top| > 0 then
          if sleepMicros < 0 then (Crashed(NegativeSleep), [poll])
          else
            var rest := Polling(lotId, msts, sleepMicros, fetched[1..]);
            (rest.0, [poll, Sleep(sleepMicros)] + rest.1)
        else (GaveUp, [poll])
  }

  /** Every snapshot has the three keys `lastbid` is created with. */
  predicate AllHaveBidKeys(fetched: seq<Option<Snapshot>>)
  {
    forall k :: 0 <= k < |fetched| && fetched[k].Some? ==> HasBidKeys(fetched[k].value.top)
  }

  /** The row `str(msts),first,last,bid,bidcount` the winner's snapshot writes. */
  function WinnerRow(msts: int, s: Snapshot): string
    requires HasBidKeys(s.top)
  {
    Row(msts, s.top, s.bidCount)
  }

  /**
   * Where the outcome leaves the log: one more row after a win, taking one
   * line more for each newline in it, and untouched otherwise.
   */
  function LogAfter(lines: Option<seq<string>>, msts: int, outcome: Outcome): (r: Option<seq<string>>)
    requires outcome.Won? ==> HasBidKeys(outcome.winner.top)
    ensures r.Some? <==> lines.Some? || outcome.Won?
    ensures outcome.Won? ==> |r.value| == |Before(lines)| + multiset(WinnerRow(msts, outcome.winner))['\n'] + 1
    ensures !outcome.Won? ==> r == lines
  {
    if outcome.Won? then Some(WithRow(lines, WinnerRow(msts, outcome.winner))) else lines
  }

  /**
   * Lines 121-158: `while not done`, polling with the frozen `msts`, recording
   * the winner, or sleeping `endts - nowts` seconds before polling again.
   * `nowts` is read once at startup, so every sleep has that same length.
   */
  method PollUntilWinner(file: ResultFile, lotId: nat, endts: int, nowMicros: int, fetched: seq<Option<Snapshot>>)
    returns (outcome: Outcome, events: seq<Event>)
    requires AllHaveBidKeys(fetched)
    modifies file
    ensures (outcome, events) == Polling(lotId, Millis(nowMicros), endts * 1000000 - nowMicros, fetched)
    ensures outcome.Won? ==> HasBidKeys(outcome.winner.top)
    ensures file.lines == LogAfter(old(file.lines), Millis(nowMicros), outcome)
  {
    var sleepMicros := endts * 1000000 - nowMicros;
    ghost var stamp := Millis(nowMicros);
    ghost var all := Polling(lotId, stamp, sleepMicros, fetched);
    var done := false;
    var k := 0;
    events := [];
    outcome := OutOfReplies;
    assert fetched[0..] == fetched;
    while !done
      invariant 0 <= k <= |fetched|
      invariant !done ==> file.lines == old(file.lines)
      invariant !done ==> all.0 == Polling(lotId, stamp, sleepMicros, fetched[k..]).0
      invariant !done ==> all.1 == events + Polling(lotId, stamp, sleepMicros, fetched[k..]).1
      invariant done ==> (outcome, events) == all
      invariant done && outcome.Won? ==> HasBidKeys(outcome.winner.top)
      invariant done ==> file.lines == LogAfter(old(file.lines), stamp, outcome)
      decreases |fetched| - k, if done then 0 else 1
    {
      var msts := Millis(nowMicros);
      var url := StatusUrl(msts);
      if k == |fetched| {
        assert fetched[k..] == [] && events + [] == events;
        outcome := OutOfReplies;
        done := true;
      } else {
        ghost var before := events;
        PollingAt(lotId, msts, sleepMicros, fetched, k);
        events := events + [Poll(lotId, url)];
        if fetched[k].None? {
          return Crashed(NoStatus), events;
        }
        var s := fetched[k].value;
        if s.hasWinner {
          file.AppendRow(WinnerRow(msts, s));
          outcome := Won(s);
          done := true;
        } else if |s.top| > 0 {
          if sleepMicros < 0 {
            return Crashed(NegativeSleep), events;
          }
          events := events + [Sleep(sleepMicros)];
          Regroup(before, Poll(lotId, url), Sleep(sleepMicros), Polling(lotId, msts, sleepMicros, fetched[k + 1..]).1);
          k := k + 1;
        } else {
          outcome := GaveUp;
          done := true;
        }
      }
    }
  }

  /** One poll of the loop: the first result decides whether the loop ends or sleeps and goes on. */
  lemma PollingStep(lotId: nat, msts: int, sleepMicros: int, fetched: seq<Option<Snapshot>>)
    requires fetched != []
    ensures var poll := Poll(lotId, StatusUrl(msts));
      Polling(lotId, msts, sleepMicros, fetched)
      == if fetched[0].None? then (Crashed(NoStatus), [poll])
         else if fetched[0].value.hasWinner then (Won(fetched[0].value), [poll])
         else if |fetched[0].value.top| == 0 then (GaveUp, [poll])
         else if sleepMicros < 0 then (Crashed(NegativeSleep), [poll])
         else (Polling(lotId, msts, sleepMicros, fetched[1..]).0,
               [poll, Sleep(sleepMicros)] + Polling(lotId, msts, sleepMicros, fetched[1..]).1)
  {
  }

  /** The same step, for the results from index `k` on. */
  lemma PollingAt(lotId: nat, msts: int, sleepMicros: int, fetched: seq<Option<Snapshot>>, k: nat)
    requires k < |fetched|
    ensures var poll := Poll(lotId, StatusUrl(msts));
      Polling(lotId, msts, sleepMicros, fetched[k..])
      == if fetched[k].None? then (Crashed(NoStatus), [poll])
         else if fetched[k].value.hasWinner then (Won(fetched[k].value), [poll])
         else if |fetched[k].value.top| == 0 then (GaveUp, [poll])
         else if sleepMicros < 0 then (Crashed(NegativeSleep), [poll])
         else (Polling(lotId, msts, sleepMicros, fetched[k + 1..]).0,
               [poll, Sleep(sleepMicros)] + Polling(lotId, msts, sleepMicros, fetched[k + 1..]).1)
  {
    PollingStep(lotId, msts, sleepMicros, fetched[k..]);
    assert fetched[k..][0] == fetched[k] && fetched[k..][1..] == fetched[k + 1..];
  }

  lemma Regroup(before: seq<Event>, poll: Event, sleep: Event, rest: seq<Event>)
    ensures before + ([poll, sleep] + rest) == before + [poll] + [sleep] + rest
  {
  }

  /** The whole cycle: read the lot from the page, then poll. */
  function Cycle(details: Result<LotDetails.Lot, LotDetails.LotError>, nowMicros: int, fetched: seq<Option<Snapshot>>): (r: (Outcome, seq<Event>))
    ensures details.Failure? <==> r.0.Crashed? && r.0.crash.LotUnavailable?
    ensures r.1 != [] ==> details.Success?
    ensures details.Success? ==> forall e :: e in r.1 ==>
              e == Poll(details.value.id, StatusUrl(Millis(nowMicros)))
              || e == Sleep(details.value.expires * 1000000 - nowMicros)
  {
    match details
    case Failure(e) => (Crashed(LotUnavailable(e)), [])
    case Success(lot) =>
      PollingShape(lot.id, Millis(nowMicros), lot.expires * 1000000 - nowMicros, fetched);
      Polling(lot.id, Millis(nowMicros), lot.expires * 1000000 - nowMicros, fetched)
  }

  /** Lines 116-158 for one auction: `lotid, endts = get_lot_details(mainurl)`, then the polling loop. */
  method RunCycle(file: ResultFile, page: LotDetails.Page, nowMicros: int, fetched: seq<Option<Snapshot>>)
    returns (outcome: Outcome, events: seq<Event>)
    requires AllHaveBidKeys(fetched)
    modifies file
    ensures (outcome, events) == Cycle(LotDetails.GetLotDetails(page), nowMicros, fetched)
    ensures outcome.Won? ==> HasBidKeys(outcome.winner.top)
    ensures file.lines == LogAfter(old(file.lines), Millis(nowMicros), outcome)
  {
    var details := LotDetails.GetLotDetails(page);
    outcome, events := PollLot(file, details, nowMicros, fetched);
  }

  /** The unpacking of line 116, which raises when there is no pair, then the polling loop. */
  method PollLot(file: ResultFile, details: Result<LotDetails.Lot, LotDetails.LotError>, nowMicros: int,
                 fetched: seq<Option<Snapshot>>)
    returns (outcome: Outcome, events: seq<Event>)
    requires AllHaveBidKeys(fetched)
    modifies file
    ensures (outcome, events) == Cycle(details, nowMicros, fetched)
    ensures outcome.Won? ==> HasBidKeys(outcome.winner.top)
    ensures file.lines == LogAfter(old(file.lines), Millis(nowMicros), outcome)
  {
    if details.Failure? {
      return Crashed(LotUnavailable(details.error)), [];
    }
    outcome, events := PollUntilWinner(file, details.value.id, details.value.expires, nowMicros, fetched);
  }

  // ---- Properties ----

  /**
   * The results of polling with these replies, one `update_lot` call each:
   * None for a bad status or an error list, otherwise a snapshot with the
   * three keys, the reply's winner flag and the length of its history.
   */
  function Fetched(replies: seq<StatusReply>): (fetched: seq<Option<Snapshot>>)
    ensures |fetched| == |replies| && AllHaveBidKeys(fetched)
    ensures forall k :: 0 <= k < |replies| ==>
              (fetched[k].None? <==> replies[k].status != 200 || |replies[k].body.errors| > 0)
    ensures forall k :: 0 <= k < |replies| && fetched[k].Some? ==>
              && fetched[k].value.hasWinner == replies[k].body.data.hasWinner
              && fetched[k].value.bidCount == |replies[k].body.data.bidHistory|
  {
    seq(|replies|, k requires 0 <= k < |replies| => UpdateLot(replies[k]).result)
  }

  /** Whatever the replies, every snapshot `update_lot` returns has its three keys. */
  lemma FetchedHaveBidKeys(replies: seq<StatusReply>)
    ensures AllHaveBidKeys(Fetched(replies))
  {
  }

  /**
   * Every reply is polled at most once, with a sleep after it at most: the
   * loop asks about one lot at one URL and sleeps one length. Running out of
   * replies means every reply was polled and slept on. A win comes from a
   * reply that has a winner, and the loop itself never fails to read a lot.
   */
  lemma {:induction false} PollingShape(lotId: nat, msts: int, sleepMicros: int, fetched: seq<Option<Snapshot>>)
    ensures var (outcome, events) := Polling(lotId, msts, sleepMicros, fetched);
      && |events| <= 2 * |fetched|
      && (events == [] <==> fetched == [])
      && (forall e :: e in events ==> e == Poll(lotId, StatusUrl(msts)) || e == Sleep(sleepMicros))
      && (outcome == OutOfReplies ==> |events| == 2 * |fetched|)
      && (outcome.Won? ==> outcome.winner.hasWinner && Some(outcome.winner) in fetched)
      && !(outcome.Crashed? && outcome.crash.LotUnavailable?)
    decreases |fetched|
  {
    if fetched != [] {
      var rest := fetched[1..];
      PollingShape(lotId, msts, sleepMicros, rest);
      var r := Polling(lotId, msts, sleepMicros, rest);
      if r.0.Won? {
        assert Some(r.0.winner) in fetched by {
          var k :| 0 <= k < |rest| && rest[k] == Some(r.0.winner);
          assert fetched[k + 1] == rest[k];
        }
      }
    }
  }

  /** A result that yields a snapshot without a winner: the loop sleeps and polls again. */
  predicate Waiting(o: Option<Snapshot>)
  {
    o.Some? && !o.value.hasWinner
  }

  /** How many results, from the first, are `Waiting`. */
  function Leading(fetched: seq<Option<Snapshot>>): (n: nat)
    ensures n <= |fetched|
    ensures forall j :: 0 <= j < n ==> Waiting(fetched[j])
    ensures n < |fetched| ==> !Waiting(fetched[n])
    decreases |fetched|
  {
    if fetched == [] || !Waiting(fetched[0]) then 0 else 1 + Leading(fetched[1..])
  }

  /**
   * With a sleep that can happen, the loop polls and sleeps once for every
   * leading result without a winner, then polls once more if a result is
   * left. That result ends the loop: with its snapshot when it has a winner,
   * with an exception when it is None. Every poll asks about the same lot at
   * the same URL, and every sleep lasts the same time.
   */
  lemma {:induction false} PollingTrace(lotId: nat, msts: int, sleepMicros: int, fetched: seq<Option<Snapshot>>)
    requires sleepMicros >= 0 && AllHaveBidKeys(fetched)
    ensures var (outcome, events) := Polling(lotId, msts, sleepMicros, fetched);
      var n := Leading(fetched);
      && |events| == 2 * n + (if n < |fetched| then 1 else 0)
      && (forall j :: 0 <= j < |events| ==>
            events[j] == if j % 2 == 0 then Poll(lotId, StatusUrl(msts)) else Sleep(sleepMicros))
      && outcome == (if n == |fetched| then OutOfReplies
                     else if fetched[n].None? then Crashed(NoStatus)
                     else Won(fetched[n].value))
    decreases |fetched|
  {
    if fetched != [] && Waiting(fetched[0]) {
      var rest := fetched[1..];
      assert AllHaveBidKeys(rest) by {
        forall k | 0 <= k < |rest| && rest[k].Some?
          ensures HasBidKeys(rest[k].value.top)
        {
          assert rest[k] == fetched[k + 1];
        }
      }
      PollingTrace(lotId, msts, sleepMicros, rest);
      BidKeysTruthy(fetched[0].value.top);
      var events := Polling(lotId, msts, sleepMicros, fetched).1;
      var tail := Polling(lotId, msts, sleepMicros, rest).1;
      assert events == [Poll(lotId, StatusUrl(msts)), Sleep(sleepMicros)] + tail;
      forall j | 2 <= j < |events|
        ensures events[j] == if j % 2 == 0 then Poll(lotId, StatusUrl(msts)) else Sleep(sleepMicros)
      {
        assert events[j] == tail[j - 2];
      }
      var n := Leading(rest);
      assert n < |rest| ==> fetched[1 + n] == rest[n];
    }
  }

  /**
   * When the expiry precedes the startup time `nowts`, the sleep length is
   * negative, and the first result without a winner makes `time.sleep` raise.
   */
  lemma NegativeSleepCrashes(lotId: nat, msts: int, sleepMicros: int, fetched: seq<Option<Snapshot>>)
    requires sleepMicros < 0 && |fetched| > 0 && Waiting(fetched[0]) && HasBidKeys(fetched[0].value.top)
    ensures Polling(lotId, msts, sleepMicros, fetched) == (Crashed(NegativeSleep), [Poll(lotId, StatusUrl(msts))])
  {
    BidKeysTruthy(fetched[0].value.top);
  }

  /** The `else` branch at line 156 is never taken: every snapshot's top bid has its three keys. */
  lemma {:induction false} NeverGivesUp(lotId: nat, msts: int, sleepMicros: int, fetched: seq<Option<Snapshot>>)
    requires AllHaveBidKeys(fetched)
    ensures Polling(lotId, msts, sleepMicros, fetched).0 != GaveUp
    decreases |fetched|
  {
    if fetched != [] {
      if fetched[0].Some? {
        BidKeysTruthy(fetched[0].value.top);
      }
      var rest := fetched[1..];
      assert AllHaveBidKeys(rest) by {
        forall k | 0 <= k < |rest| && rest[k].Some?
          ensures HasBidKeys(rest[k].value.top)
        {
          assert rest[k] == fetched[k + 1];
        }
      }
      NeverGivesUp(lotId, msts, sleepMicros, rest);
    }
  }

  /**
   * A win appends exactly one row, the winner's, to the log, after a header
   * only when the log did not exist. The lines it adds join back into the row,
   * and they are one line, the last, when the names and the bid hold no newline.
   */
  lemma WinAppendsOneRow(lines: Option<seq<string>>, msts: int, outcome: Outcome)
    requires outcome.Won? && HasBidKeys(outcome.winner.top)
    ensures var after := LogAfter(lines, msts, outcome).value;
      && after[..|Before(lines)|] == Before(lines)
      && Join('\n', after[|Before(lines)|..]) == WinnerRow(msts, outcome.winner)
      && (lines.None? ==> after[0] == Header)
    ensures var top := outcome.winner.top;
      '\n' !in PyText(top[FirstName]) && '\n' !in PyText(top[LastName]) && '\n' !in PyText(top[BidKey]) ==>
        LogAfter(lines, msts, outcome).value == Before(lines) + [WinnerRow(msts, outcome.winner)]
  {
    var top := outcome.winner.top;
    if '\n' !in PyText(top[FirstName]) && '\n' !in PyText(top[LastName]) && '\n' !in PyText(top[BidKey]) {
      RowIsOneLine(msts, top, outcome.winner.bidCount);
    }
  }
}
