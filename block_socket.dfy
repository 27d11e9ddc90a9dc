/** The new-block watcher (packages/background/services/blockchain/socket.js):
    a subscription to NEW_BLOCK events with a polling fallback.  Every
    callback is one atomic step; the observer's stream is the ghost sequence
    `emitted`. */
module BlockSocket {
  import opened Wrappers
  import opened Decimal

  /** HALF_MINUTE: the polling period, in milliseconds. */
  const PollingPeriod: nat := 30000

  /** A JavaScript number as `Number(...)` produces it for a block number. */
  datatype JsNumber = NaN | Num(value: nat)

  /** `===` on numbers: NaN equals nothing, not even NaN. */
  predicate StrictEquals(a: JsNumber, b: JsNumber): (r: bool)
    ensures r ==> a == b
    ensures a.NaN? || b.NaN? ==> !r
    ensures a.Num? && a == b ==> r
  {
    a.Num? && b.Num? && a.value == b.value
  }

  /** `Number(s)` (and `isNaN(s)`, which is `Number(s)` being NaN) for block
      numbers: a string of decimal digits reads as its value, the empty
      string as 0, anything else as NaN. */
  function ToNumber(s: string): (r: JsNumber)
    ensures r.Num? <==> AllDigits(s)
    ensures s == [] ==> r == Num(0)
  {
    if AllDigits(s) then Num(DigitsValue(s)) else NaN
  }

  /** `Number(String(n)) === n`. */
  lemma NumberOfString(n: nat)
    ensures ToNumber(NatToString(n)) == Num(n)
  {
    ReadNatToString(n);
  }

  /** A canonical block number string survives `String(Number(s))`, so the
      socket path and the polling path report the same text for it. */
  lemma StringOfNumber(s: string)
    requires Canonical(s)
    ensures ToNumber(s).Num? && NatToString(ToNumber(s).value) == s
  {
    WriteDigitsValue(s);
  }

  /** What `observer.next` receives: the block from a NEW_BLOCK event, or the
      polled block with the latest transaction hashes. */
  datatype Notification = SocketBlock(blockNum: JsNumber)
                        | PolledBlock(blockNum: JsNumber, txHashes: seq<string>)

  /** How one `_getBlockchainInfo` request ends: GetLatestTxBlock failed, or
      it answered with a block number, and GetRecentTransactions either
      answered with hashes or failed. */
  datatype PollReply = RequestFailed | LatestBlock(blockNum: string, recent: Option<seq<string>>)

  class SocketControl {
    var running: bool            // _running
    var blockNumber: JsNumber    // blockNumber
    var subscribed: bool         // a NEW_BLOCK subscription and its listeners exist
    var interval: Option<nat>    // _interval: the polling timer and its period
    var leakedTimers: nat        // polling timers still running that `_interval` no longer names
    var netStatus: bool          // networkControl.status
    var netBlockNumber: string   // the last value passed to networkControl.updateBlockNumber
    ghost var emitted: seq<Notification>

    /** `blockNumber` is 0 before any notification and the number of the last
        one afterwards; no two consecutive notifications carry numbers that are
        `===`-equal (two NaNs may follow each other),
        and the first is not 0. */
    ghost predicate Valid()
      reads this
    {
      && (emitted == [] ==> blockNumber == Num(0))
      && (emitted != [] ==> blockNumber == emitted[|emitted| - 1].blockNum)
      && (emitted != [] ==> !StrictEquals(emitted[0].blockNum, Num(0)))
      && (forall i :: 0 < i < |emitted| ==> !StrictEquals(emitted[i - 1].blockNum, emitted[i].blockNum))
      && (forall i :: 0 <= i < |emitted| && emitted[i].SocketBlock? ==> emitted[i].blockNum.Num?)
    }

    constructor(netStatus: bool, netBlockNumber: string)
      ensures Valid()
      ensures !running && blockNumber == Num(0) && !subscribed && interval.None? && emitted == []
      ensures leakedTimers == 0
      ensures this.netStatus == netStatus && this.netBlockNumber == netBlockNumber
    {
      running := false;
      blockNumber := Num(0);
      subscribed := false;
      interval := None;
      leakedTimers := 0;
      this.netStatus := netStatus;
      this.netBlockNumber := netBlockNumber;
      emitted := [];
    }

    /** start(): nothing when already running; otherwise registers the
        subscription, or, when setting it up throws, starts polling and
        counts as running.  A successful setup is running only once the
        socket opens (OnOpen).  A new polling timer replaces the one
        `_interval` names without clearing it, which then runs on. */
    method Start(setupThrows: bool)
      requires Valid()
      modifies this
      ensures Valid()
      ensures old(running) ==> unchanged(this)
      ensures !old(running) && !setupThrows ==>
                && subscribed && !running && interval == old(interval)
                && leakedTimers == old(leakedTimers)
                && blockNumber == old(blockNumber) && emitted == old(emitted)
                && netStatus == old(netStatus) && netBlockNumber == old(netBlockNumber)
      ensures !old(running) && setupThrows ==>
                && running && interval == Some(PollingPeriod) && subscribed == old(subscribed)
                && leakedTimers == old(leakedTimers) + (if old(interval).Some? then 1 else 0)
                && blockNumber == old(blockNumber) && emitted == old(emitted)
                && netStatus == old(netStatus) && netBlockNumber == old(netBlockNumber)
    {
      if running {
        return;
      }
      if setupThrows {
        if interval.Some? {
          leakedTimers := leakedTimers + 1;
        }
        interval := Some(PollingPeriod);
        running := true;
      } else {
        subscribed := true;
      }
    }

    /** The socket's `onopen`: the subscription has started. */
    method OnOpen()
      requires Valid()
      modifies this
      ensures Valid()
      ensures running && netStatus
      ensures subscribed == old(subscribed) && interval == old(interval) && leakedTimers == old(leakedTimers)
      ensures blockNumber == old(blockNumber) && emitted == old(emitted)
      ensures netBlockNumber == old(netBlockNumber)
    {
      running := true;
      netStatus := true;
    }

    /** The NEW_BLOCK handler: a non-numeric or already seen block number is
        ignored; a new one is recorded, emitted once and reported to the
        network control as its string. */
    method OnNewBlock(rawBlockNum: string)
      requires Valid()
      modifies this
      ensures Valid()
      ensures var n := ToNumber(rawBlockNum);
              if n.NaN? || StrictEquals(old(blockNumber), n) then
                unchanged(this)
              else
                && blockNumber == n
                && emitted == old(emitted) + [SocketBlock(n)]
                && netBlockNumber == NatToString(n.value)
                && running == old(running) && subscribed == old(subscribed)
                && interval == old(interval) && leakedTimers == old(leakedTimers)
                && netStatus == old(netStatus)
    {
      var n := ToNumber(rawBlockNum);
      if n.NaN? {
        return;
      } else if StrictEquals(blockNumber, n) {
        return;
      }
      blockNumber := n;
      emitted := emitted + [SocketBlock(n)];
      netBlockNumber := NatToString(n.value);
    }

    /** The UNSUBSCRIBE handler. */
    method OnUnsubscribe()
      requires Valid()
      modifies this
      ensures Valid()
      ensures !running
      ensures subscribed == old(subscribed) && interval == old(interval) && leakedTimers == old(leakedTimers)
      ensures blockNumber == old(blockNumber) && emitted == old(emitted)
      ensures netStatus == old(netStatus) && netBlockNumber == old(netBlockNumber)
    {
      running := false;
    }

    /** stop(): nothing when not running; otherwise tears down the
        subscription (its errors are swallowed), clears the polling timer
        `_interval` names and is no longer running.  Timers it no longer
        names keep running. */
    method Stop()
      requires Valid()
      modifies this
      ensures Valid()
      ensures !old(running) ==> unchanged(this)
      ensures old(running) ==>
                && !running && !subscribed && interval.None? && leakedTimers == old(leakedTimers)
                && blockNumber == old(blockNumber) && emitted == old(emitted)
                && netStatus == old(netStatus) && netBlockNumber == old(netBlockNumber)
    {
      if !running {
        return;
      }
      subscribed := false;
      interval := None;
      running := false;
    }

    /** `_getBlockchainInfo`, once its requests have answered: a block number
        already recorded changes nothing; a new one is recorded and emitted
        with the recent transaction hashes and marks the network up; any
        failed request marks the network down and stops the watcher. */
    method Poll(reply: PollReply)
      requires Valid()
      modifies this
      ensures Valid()
      ensures reply.LatestBlock? && StrictEquals(old(blockNumber), ToNumber(reply.blockNum)) ==>
                unchanged(this)
      ensures reply.LatestBlock? && !StrictEquals(old(blockNumber), ToNumber(reply.blockNum))
              && reply.recent.Some? ==>
                && blockNumber == ToNumber(reply.blockNum)
                && emitted == old(emitted) + [PolledBlock(ToNumber(reply.blockNum), reply.recent.value)]
                && netStatus && netBlockNumber == reply.blockNum
                && running == old(running) && subscribed == old(subscribed) && interval == old(interval)
                && leakedTimers == old(leakedTimers)
      ensures reply.RequestFailed?
              || (!StrictEquals(old(blockNumber), ToNumber(reply.blockNum)) && reply.recent.None?) ==>
                && !netStatus && !running
                && (old(running) ==> !subscribed && interval.None?)
                && (!old(running) ==> subscribed == old(subscribed) && interval == old(interval))
                && leakedTimers == old(leakedTimers)
                && blockNumber == old(blockNumber) && emitted == old(emitted)
                && netBlockNumber == old(netBlockNumber)
    {
      if reply.RequestFailed? {
        netStatus := false;
        Stop();
        return;
      }
      var n := ToNumber(reply.blockNum);
      if StrictEquals(blockNumber, n) {
        return;
      }
      if reply.recent.None? {
        netStatus := false;
        Stop();
        return;
      }
      blockNumber := n;
      emitted := emitted + [PolledBlock(n, reply.recent.value)];
      netStatus := true;
      netBlockNumber := reply.blockNum;
    }
  }

  /** A block number that is not a number is NaN, which never equals the
      recorded one, so every poll that returns it notifies again. */
  method RepeatedNaNPoll() returns (w: SocketControl)
    ensures w.Valid()
    ensures w.emitted == [PolledBlock(NaN, []), PolledBlock(NaN, [])]
  {
    w := new SocketControl(true, "0");
    w.Poll(LatestBlock("x", Some([])));
    w.Poll(LatestBlock("x", Some([])));
  }

  /** A start that subscribes, a start whose setup throws, the UNSUBSCRIBE
      event and a second throwing start leave one polling timer running that
      stop() does not clear. */
  method TimerLeak() returns (w: SocketControl)
    ensures w.Valid()
    ensures !w.running && w.interval.None? && w.leakedTimers == 1
  {
    w := new SocketControl(true, "0");
    w.Start(false);
    w.Start(true);
    w.OnUnsubscribe();
    w.Start(true);
    w.Stop();
  }
}
