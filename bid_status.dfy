/**
 * `update_lot`: one poll of the bidding API, from the decoded reply to
 * `(winr, len(bids), lastbid)` or to nothing.
 *
 * The reply arrives here already decoded: its status code, its text, and the
 * JSON object `json.loads` makes of that text. `lastbid` is the Python dict
 * the function fills in place; it is modelled as a map from its keys to
 * Python values.
 */
module BidStatus {
  import opened Wrappers

  /** The Python values a `lastbid` entry can hold. */
  datatype PyValue = PyNone | PyStr(s: string) | PyInt(i: int)

  datatype Customer = Customer(firstName: string, lastName: string)

  /** One entry of `bidHistory`, most recent first. */
  datatype Bid = Bid(customer: Customer, price: int)

  datatype ApiError = ApiError(code: string, description: string)

  datatype LotData = LotData(hasWinner: bool, bidHistory: seq<Bid>)

  /** The decoded JSON object: its `errors` list and its `data` object. */
  datatype StatusBody = StatusBody(errors: seq<ApiError>, data: LotData)

  datatype StatusReply = StatusReply(status: int, text: string, body: StatusBody)

  /**
   * The logging calls the function makes before returning nothing, in order.
   * `ErrorEntry` is the call `logging.info(code, description)`: the code is
   * the message and the description its one `%`-argument, so the record's
   * text is `code % (description,)`, formatted only when a handler emits it.
   */
  datatype LogEntry =
    | GotErrors                                    // `logging.info("Got errors:")`
    | ErrorEntry(code: string, description: string)
    | StatusEntry(status: int)                     // `logging.debug(f"Wrong status code: ...")`
    | TextEntry(text: string)                      // `logging.debug(f"Text: ...")`

  /** The returned triple `(winr, len(bids), lastbid)`. */
  datatype Snapshot = Snapshot(hasWinner: bool, bidCount: nat, top: map<string, PyValue>)

  /** The result, or None, together with what was logged on the way. */
  datatype Update = Update(result: Option<Snapshot>, logged: seq<LogEntry>)

  const FirstName := "first_name"
  const LastName := "last_name"
  const BidKey := "bid"

  /** `lastbid` as first created, before any bid is copied into it. */
  const Placeholder: map<string, PyValue> := map[FirstName := PyNone, LastName := PyNone, BidKey := PyInt(0)]

  /** The keys `lastbid` is created with; later assignments only replace their values. */
  predicate HasBidKeys(top: map<string, PyValue>)
  {
    top.Keys == {FirstName, LastName, BidKey}
  }

  /** The placeholder, overwritten with the newest bid's names and price when there is one. */
  function TopBid(bids: seq<Bid>): (top: map<string, PyValue>)
    ensures HasBidKeys(top)
  {
    if |bids| > 0 then
      Placeholder[FirstName := PyStr(bids[0].customer.firstName)]
                 [LastName := PyStr(bids[0].customer.lastName)]
                 [BidKey := PyInt(bids[0].price)]
    else Placeholder
  }

  function ErrorEntries(errors: seq<ApiError>): (log: seq<LogEntry>)
    ensures |log| == |errors|
    ensures forall k :: 0 <= k < |errors| ==> log[k] == ErrorEntry(errors[k].code, errors[k].description)
  {
    if errors == [] then [] else [ErrorEntry(errors[0].code, errors[0].description)] + ErrorEntries(errors[1..])
  }

  /** `update_lot(lot_id, url)` on the reply its POST request gets. */
  function UpdateLot(reply: StatusReply): (u: Update)
    ensures u.result.None? <==> reply.status != 200 || |reply.body.errors| > 0
    ensures u.result.Some? ==> HasBidKeys(u.result.value.top)
    ensures u.result.None? <==> |u.logged| >= 2
    ensures u.result.Some? <==> u.logged == []
  {
    if reply.status != 200 then
      Update(None, [StatusEntry(reply.status), TextEntry(reply.text)])
    else if |reply.body.errors| > 0 then
      Update(None, [GotErrors] + ErrorEntries(reply.body.errors))
    else
      var data := reply.body.data;
      Update(Some(Snapshot(data.hasWinner, |data.bidHistory|, TopBid(data.bidHistory))), [])
  }

  // ---- Properties ----

  /**
   * A non-empty `errors` list is announced once and then passed to the logger
   * entry by entry, and nothing is returned.
   */
  lemma ErrorsAreLogged(reply: StatusReply)
    requires reply.status == 200 && |reply.body.errors| > 0
    ensures UpdateLot(reply).result == None
    ensures |UpdateLot(reply).logged| == |reply.body.errors| + 1
    ensures UpdateLot(reply).logged[0] == GotErrors
    ensures forall k :: 0 <= k < |reply.body.errors| ==>
              UpdateLot(reply).logged[k + 1] == ErrorEntry(reply.body.errors[k].code, reply.body.errors[k].description)
  {
  }

  /** A status other than 200 logs the status and the text, and nothing is returned. */
  lemma BadStatusIsLogged(reply: StatusReply)
    requires reply.status != 200
    ensures UpdateLot(reply) == Update(None, [StatusEntry(reply.status), TextEntry(reply.text)])
  {
  }

  /**
   * On success the count is the length of the history, the winner flag is
   * copied, and the top bid's entries come from the newest bid.
   */
  lemma SnapshotFromHistory(reply: StatusReply)
    requires UpdateLot(reply).result.Some?
    ensures var s := UpdateLot(reply).result.value; var bids := reply.body.data.bidHistory;
      && s.hasWinner == reply.body.data.hasWinner
      && s.bidCount == |bids|
      && HasBidKeys(s.top)
      && (|bids| > 0 ==>
            && s.top[FirstName] == PyStr(bids[0].customer.firstName)
            && s.top[LastName] == PyStr(bids[0].customer.lastName)
            && s.top[BidKey] == PyInt(bids[0].price))
  {
  }

  /**
   * An empty history gives a count of 0 and the placeholder top bid, not an
   * absent one, whether or not there is a winner.
   */
  lemma EmptyHistoryPlaceholder(reply: StatusReply)
    requires reply.status == 200 && reply.body.errors == [] && reply.body.data.bidHistory == []
    ensures UpdateLot(reply).result == Some(Snapshot(reply.body.data.hasWinner, 0, Placeholder))
  {
  }

  /** The names in the top bid are present exactly when the history is not empty. */
  lemma NamesIffBids(bids: seq<Bid>)
    ensures TopBid(bids)[FirstName].PyStr? <==> |bids| > 0
    ensures TopBid(bids)[LastName].PyStr? <==> |bids| > 0
  {
  }

  /** A dict with the three keys of `lastbid` is not empty, so `elif topbid` holds. */
  lemma BidKeysTruthy(top: map<string, PyValue>)
    requires HasBidKeys(top)
    ensures |top| == 3
  {
    assert |{FirstName, LastName, BidKey}| == 3;
  }
}
