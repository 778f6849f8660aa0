/** When a navigated capture is still in reach, told from the state alone, and when its delivery is certain. */
module CaptureDelivery {
  import opened Wrappers
  import opened CaptureText
  import opened CaptureStore
  import opened CaptureRelay

  // ---------------------------------------------------------------- what a claim decides

  ghost predicate Live(e: Slot, now: int)
    requires e.Entry?
  {
    0 <= now - e.createdAt <= DEFAULT_TTL_MS
  }

  /** The request names the entry: its nonce, its target if it has one, and its tab once bound. */
  ghost predicate Matches(e: Slot, req: Request)
    requires e.Entry?
  {
    && req.nonce == e.nonce
    && (e.origin.None? || (Some(req.origin) == e.origin && Some(req.path) == e.path))
    && (e.tab.None? || e.tab == Some(req.tab))
  }

  ghost predicate FromCapturePage(req: Request) {
    IsValidNonce(req.nonce) && req.origin in GROWTH_ORIGINS && req.path == CAPTURE_PAGE_PATH
  }

  /** A claim discards an entry that is not live, delivers one the request names and leaves any other. */
  ghost predicate Decides(cfg: Config, e: Slot, req: Request, now: int)
    requires e.Entry?
  {
    match cfg.claim(e, req, now)
    case Discard => !Live(e, now)
    case Leave => Live(e, now) && !Matches(e, req)
    case Deliver(_) => Live(e, now) && Matches(e, req)
  }

  /** A popup's entry as put, or as bound to a tab. */
  ghost function EntryFor(cfg: Config, e: Slot, tab: Option<nat>): Slot
    requires e.Entry?
  {
    if tab.None? then e else BoundEntry(cfg, e, tab.value)
  }

  ghost predicate DecidesAt(
    cfg: Config, payload: RawPayload, n: Text, put: int, tab: Option<nat>, req: Request, now: int)
  {
    var entry := cfg.put(payload, n, put);
    entry.Some? && entry.value.Entry? && FromCapturePage(req) ==>
      Decides(cfg, EntryFor(cfg, entry.value, tab), req, now)
  }

  ghost predicate Judging(cfg: Config) {
    && (forall payload, n, put, tab, req, now :: DecidesAt(cfg, payload, n, put, tab, req, now))
    && (forall req, now :: cfg.claim(Absent, req, now).Discard?)
  }

  /** What the store makes of a sound entry and a normal request. */
  lemma {:induction false} DecisionOnEntry(e: Slot, req: Request, now: int, strip: Text -> Text)
    requires e.Entry? && IsValidNonce(e.nonce) && ValidPayload(e.payload) && FromCapturePage(req)
    requires e.origin.Some? && e.origin.value in GROWTH_ORIGINS && e.path == Some(CAPTURE_PAGE_PATH)
    requires e.tab.Some? ==> e.tab.value >= 0
    ensures var decision := DecideClaim(e, RequestBinding(req), now, DEFAULT_TTL_MS, strip);
      && (decision.Discard? <==> !Live(e, now))
      && (decision.Deliver? <==> Live(e, now) && Matches(e, req))
  {
    NormalNonceIsFixed(e.nonce);
    NormalNonceIsFixed(req.nonce);
    assert RequestBinding(req) == Some(Binding(Some(req.nonce), Some(req.tab), Some(req.origin), Some(req.path)));
    DeliveredOnlyToItsClaimant(e, RequestBinding(req), now, DEFAULT_TTL_MS, strip);
  }

  lemma {:induction false} BrowserDecides(
      origin: string, strip: Text -> Text, payload: RawPayload, n: Text, put: int, tab: Option<nat>, req: Request,
      now: int)
    ensures DecidesAt(Browser(origin, strip), payload, n, put, tab, req, now)
  {
    var cfg := Browser(origin, strip);
    if cfg.put(payload, n, put).Some? && FromCapturePage(req) {
      var entry := PutEntry(payload, Target(origin, n, None), put, strip);
      CleanIsValid(payload, strip);
      CleanIsValid(entry.payload, strip);
      DecisionOnEntry(EntryFor(cfg, entry, tab), req, now, strip);
    }
  }

  lemma {:induction false} BrowserIsJudging(origin: string, strip: Text -> Text)
    ensures Judging(Browser(origin, strip))
  {
    var cfg := Browser(origin, strip);
    forall payload, n, put, tab, req, now ensures DecidesAt(cfg, payload, n, put, tab, req, now) {
      BrowserDecides(origin, strip, payload, n, put, tab, req, now);
    }
  }

  // ---------------------------------------------------------------- every slot is some popup's

  ghost predicate Stored(cfg: Config, popups: map<Text, Popup>, e: Slot) {
    && !e.Malformed?
    && (e.Entry? ==>
          && e.nonce in popups && popups[e.nonce].entry.Entry?
          && exists tab: Option<nat> :: e == EntryFor(cfg, popups[e.nonce].entry, tab))
  }

  ghost predicate AllStored(cfg: Config, s: Relay) {
    Stored(cfg, s.popups, s.slot) && (s.worker.Deciding? ==> Stored(cfg, s.popups, s.worker.seen))
  }

  lemma {:induction false} StoredStays(cfg: Config, popups: map<Text, Popup>, popups': map<Text, Popup>, e: Slot)
    requires Stored(cfg, popups, e)
    requires forall n | n in popups :: n in popups' && popups'[n].entry == popups[n].entry
    ensures Stored(cfg, popups', e)
  {
    if e.Entry? {
      var tab: Option<nat> :| e == EntryFor(cfg, popups[e.nonce].entry, tab);
      assert e == EntryFor(cfg, popups'[e.nonce].entry, tab);
    }
  }

  lemma {:induction false} EntriesStay(cfg: Config, s: Relay, a: Action, n: Text)
    requires Step(cfg, s, a).Some? && n in s.popups
    ensures n in Step(cfg, s, a).value.popups && Step(cfg, s, a).value.popups[n].entry == s.popups[n].entry
  {}

  /** The slot after a step: as it was, empty, or what its popup put or bound. */
  lemma {:induction false} SlotOfStep(cfg: Config, s: Relay, a: Action)
    requires Inv(cfg, s) && Step(cfg, s, a).Some? && Stored(cfg, s.popups, s.slot)
    ensures Stored(cfg, s.popups, Step(cfg, s, a).value.slot)
  {
    if a.PutLands? {
      assert PopupOk(cfg, a.nonce, s.popups[a.nonce], s.navigated);
      assert Step(cfg, s, a).value.slot == EntryFor(cfg, s.popups[a.nonce].entry, None);
    }
    if a.BindLands? {
      var p := s.popups[a.nonce];
      assert PopupOk(cfg, a.nonce, p, s.navigated);
      assert Step(cfg, s, a).value.slot == EntryFor(cfg, p.entry, Some(p.phase.tab));
    }
  }

  lemma {:induction false} StepKeepsStored(cfg: Config, s: Relay, a: Action)
    requires Inv(cfg, s) && AllStored(cfg, s) && Step(cfg, s, a).Some?
    ensures AllStored(cfg, Step(cfg, s, a).value)
  {
    var s' := Step(cfg, s, a).value;
    forall n | n in s.popups ensures n in s'.popups && s'.popups[n].entry == s.popups[n].entry {
      EntriesStay(cfg, s, a, n);
    }
    SlotOfStep(cfg, s, a);
    StoredStays(cfg, s.popups, s'.popups, s'.slot);
    if s'.worker.Deciding? {
      SeenOfStep(cfg, s, a);
      StoredStays(cfg, s.popups, s'.popups, s'.worker.seen);
    }
  }

  lemma {:induction false} SeenOfStep(cfg: Config, s: Relay, a: Action)
    requires Step(cfg, s, a).Some? && Step(cfg, s, a).value.worker.Deciding?
    ensures var seen := Step(cfg, s, a).value.worker.seen;
      seen == s.slot || (s.worker.Deciding? && seen == s.worker.seen)
  {
    if !ByWorker(a) { OthersLeaveWorker(cfg, s, a); }
  }

  lemma {:induction false} RunKeepsStored(cfg: Config, s: Relay, run: seq<Action>)
    requires Trusted(cfg) && Inv(cfg, s) && AllStored(cfg, s) && Exec(cfg, s, run).Some?
    ensures AllStored(cfg, Exec(cfg, s, run).value)
    decreases |run|
  {
    if run != [] {
      StepKeepsInv(cfg, s, run[0]);
      StepKeepsStored(cfg, s, run[0]);
      RunKeepsStored(cfg, Step(cfg, s, run[0]).value, run[1..]);
    }
  }

  // ---------------------------------------------------------------- in reach

  /**
   The capture is in reach. With the worker idle, or about to read the slot: the slot holds its unexpired
   entry. With a claim that has read an unexpired entry: either the claim's request names that entry, and it
   is the capture's; or it does not, and the slot holds the capture's unexpired entry, which lives on until
   the one that was read does. With a claim about to empty the slot: it has taken the capture.
   */
  ghost predicate InReach(s: Relay, n: Text) {
    match s.worker
    case Idle => Unexpired(s.slot, n, s.clock)
    case Reading(_) => Unexpired(s.slot, n, s.clock)
    case Deciding(req, seen) =>
      && seen.Entry? && s.clock - seen.createdAt <= DEFAULT_TTL_MS
      && (if Matches(seen, req) then seen.nonce == n
          else Unexpired(s.slot, n, s.clock) && seen.createdAt - s.slot.createdAt <= DEFAULT_TTL_MS)
    case Removing(req, taken) => req.nonce == n && taken.Some?
  }

  lemma {:induction false} SeenIsJudged(cfg: Config, s: Relay, t: int)
    requires Judging(cfg) && Inv(cfg, s) && AllStored(cfg, s) && s.worker.Deciding?
    ensures if s.worker.seen.Entry? then Decides(cfg, s.worker.seen, s.worker.req, t)
            else cfg.claim(s.worker.seen, s.worker.req, t).Discard?
  {
    var seen := s.worker.seen;
    if seen.Entry? {
      var p := s.popups[seen.nonce];
      var tab: Option<nat> :| seen == EntryFor(cfg, p.entry, tab);
      assert PopupOk(cfg, seen.nonce, p, s.navigated);
      assert DecidesAt(cfg, p.payload, seen.nonce, p.entry.createdAt, tab, s.worker.req, t);
    }
  }

  lemma {:induction false} InReachIsDeliverable(cfg: Config, s: Relay, n: Text)
    requires Judging(cfg) && Inv(cfg, s) && AllStored(cfg, s)
    ensures InReach(s, n) <==> Deliverable(cfg, s, n)
  {
    if s.worker.Deciding? {
      var req, seen := s.worker.req, s.worker.seen;
      forall t ensures if seen.Entry? then Decides(cfg, seen, req, t) else cfg.claim(seen, req, t).Discard? {
        SeenIsJudged(cfg, s, t);
      }
      if InReach(s, n) {
        var t := if s.clock < seen.createdAt then seen.createdAt else s.clock;
        assert ClaimHelps(cfg, req, seen, s.slot, n, t);
      }
      if t :| s.clock <= t && ClaimHelps(cfg, req, seen, s.slot, n, t) {
        assert seen.Entry? && Live(seen, t);
      }
    }
  }

  /**
   In every reachable state, a capture that has navigated and is not delivered yet is delivered by some
   continuation in which the clock does not go back if and only if it is in reach.
   */
  lemma {:induction false} DeliveredExactlyIfInReach(
      origin: string, strip: Text -> Text, clock: int, run: seq<Action>, n: Text)
    requires Exec(Browser(origin, strip), Init(clock), run).Some?
    requires n in Exec(Browser(origin, strip), Init(clock), run).value.navigated
    requires !Delivered(Exec(Browser(origin, strip), Init(clock), run).value, n)
    ensures var s := Exec(Browser(origin, strip), Init(clock), run).value;
      Reaches(Browser(origin, strip), s, n) <==> InReach(s, n)
  {
    var cfg := Browser(origin, strip);
    DeliveredExactlyIfDeliverable(origin, strip, clock, run, n);
    BrowserIsTrusted(origin, strip);
    BrowserIsJudging(origin, strip);
    RunKeepsInv(cfg, Init(clock), run);
    RunKeepsStored(cfg, Init(clock), run);
    InReachIsDeliverable(cfg, Exec(cfg, Init(clock), run).value, n);
  }

  // ---------------------------------------------------------------- undisturbed captures

  /** The request of the page the popup navigated to, for the entry it bound. */
  ghost predicate OwnRequest(e: Slot, req: Request) {
    e.Entry? && e.tab.Some? && Matches(e, req)
  }

  /** The page's request waits in the queue, or the worker has it in hand and has seen no other entry. */
  ghost predicate Waiting(s: Relay, e: Slot, req: Request) {
    || req in s.queue
    || (match s.worker
        case Idle => false
        case Reading(r) => r == req
        case Deciding(r, seen) => r == req && seen == e
        case Removing(r, taken) => r == req && taken.Some?)
  }

  /** Until the capture is delivered nobody else writes or clears the slot, and the entry stays live. */
  ghost predicate Undisturbed(cfg: Config, s: Relay, run: seq<Action>, e: Slot, n: Text)
    decreases |run|
  {
    Delivered(s, n) ||
    (e.Entry? && s.slot == e && Live(e, s.clock)
     && (run != [] && Step(cfg, s, run[0]).Some? ==> Undisturbed(cfg, Step(cfg, s, run[0]).value, run[1..], e, n)))
  }

  lemma {:induction false} DeliveredStays(cfg: Config, s: Relay, a: Action, n: Text)
    requires Delivered(s, n) && Step(cfg, s, a).Some?
    ensures Delivered(Step(cfg, s, a).value, n)
  {
    var d :| d in s.deliveries && d.nonce == n;
    if !ByWorker(a) { OthersLeaveWorker(cfg, s, a); }
    assert d in Step(cfg, s, a).value.deliveries;
  }

  lemma {:induction false} RunKeepsDelivered(cfg: Config, s: Relay, run: seq<Action>, n: Text)
    requires Delivered(s, n) && Exec(cfg, s, run).Some?
    ensures Delivered(Exec(cfg, s, run).value, n)
    decreases |run|
  {
    if run != [] {
      DeliveredStays(cfg, s, run[0], n);
      RunKeepsDelivered(cfg, Step(cfg, s, run[0]).value, run[1..], n);
    }
  }

  lemma {:induction false} OthersKeepWaiting(cfg: Config, s: Relay, a: Action, e: Slot, req: Request)
    requires Waiting(s, e, req) && !ByWorker(a) && Step(cfg, s, a).Some?
    ensures Waiting(Step(cfg, s, a).value, e, req)
  {
    OthersLeaveWorker(cfg, s, a);
  }

  /** While the slot keeps the entry, the worker brings its request to the delivery. */
  lemma {:induction false} WorkerKeepsWaiting(cfg: Config, s: Relay, a: Action, e: Slot, req: Request)
    requires Waiting(s, e, req) && WorkerStep(cfg, s, a).Some? && s.slot == e && e.Entry?
    requires s.worker.Deciding? && s.worker.req == req && s.worker.seen == e ==> cfg.claim(e, req, s.clock).Deliver?
    ensures var s' := WorkerStep(cfg, s, a).value;
      Waiting(s', e, req) || Delivered(s', req.nonce)
  {
    var s' := WorkerStep(cfg, s, a).value;
    if a.ClaimRemoves? && s.worker.req == req && s.worker.taken.Some? {
      assert s'.deliveries[|s.deliveries|].nonce == req.nonce;
    }
    if a.ClaimStarts? && req in s.queue {
      assert s.queue == [s.queue[0]] + s.queue[1..];
    }
  }

  /**
   Where nobody else writes or clears the slot and the entry stays live, a capture whose page has asked is
   delivered, unless its request still waits when the run ends.
   */
  lemma {:induction false} UndisturbedIsDelivered(
      cfg: Config, s: Relay, run: seq<Action>, e: Slot, req: Request)
    requires Trusted(cfg) && Judging(cfg) && Inv(cfg, s) && AllStored(cfg, s) && Exec(cfg, s, run).Some?
    requires e.Entry? && OwnRequest(e, req) && FromCapturePage(req)
    requires Undisturbed(cfg, s, run, e, req.nonce) && (Waiting(s, e, req) || Delivered(s, req.nonce))
    ensures var end := Exec(cfg, s, run).value;
      Delivered(end, req.nonce) || (end.slot == e && Waiting(end, e, req))
    decreases |run|
  {
    if Delivered(s, req.nonce) {
      RunKeepsDelivered(cfg, s, run, req.nonce);
    } else if run != [] {
      UndisturbedStep(cfg, s, run[0], e, req);
      StepKeepsInv(cfg, s, run[0]);
      StepKeepsStored(cfg, s, run[0]);
      UndisturbedIsDelivered(cfg, Step(cfg, s, run[0]).value, run[1..], e, req);
    }
  }

  lemma {:induction false} UndisturbedStep(cfg: Config, s: Relay, a: Action, e: Slot, req: Request)
    requires Judging(cfg) && Inv(cfg, s) && AllStored(cfg, s) && Step(cfg, s, a).Some?
    requires e.Entry? && OwnRequest(e, req) && s.slot == e && Live(e, s.clock) && Waiting(s, e, req)
    ensures var s' := Step(cfg, s, a).value; Waiting(s', e, req) || Delivered(s', req.nonce)
  {
    if ByWorker(a) {
      if s.worker.Deciding? { SeenIsJudged(cfg, s, s.clock); }
      WorkerKeepsWaiting(cfg, s, a, e, req);
    } else {
      OthersKeepWaiting(cfg, s, a, e, req);
    }
  }

  /** The same of the browser, from any state it can be in. */
  lemma {:induction false} UndisturbedCaptureArrives(
      origin: string, strip: Text -> Text, clock: int, before: seq<Action>, after: seq<Action>, req: Request)
    requires Exec(Browser(origin, strip), Init(clock), before).Some?
    requires var s := Exec(Browser(origin, strip), Init(clock), before).value;
      && Exec(Browser(origin, strip), s, after).Some?
      && OwnRequest(s.slot, req) && FromCapturePage(req) && req in s.queue
      && Undisturbed(Browser(origin, strip), s, after, s.slot, req.nonce)
    ensures var s := Exec(Browser(origin, strip), Init(clock), before).value;
      var end := Exec(Browser(origin, strip), s, after).value;
      Delivered(end, req.nonce) || (end.slot == s.slot && Waiting(end, s.slot, req))
  {
    var cfg := Browser(origin, strip);
    BrowserIsTrusted(origin, strip);
    BrowserIsJudging(origin, strip);
    RunKeepsInv(cfg, Init(clock), before);
    RunKeepsStored(cfg, Init(clock), before);
    var s := Exec(cfg, Init(clock), before).value;
    UndisturbedIsDelivered(cfg, s, after, s.slot, req);
  }
}
