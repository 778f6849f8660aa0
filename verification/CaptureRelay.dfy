/**
 The capture hand-off as it runs in the browser: any number of popups and one service worker share one
 storage slot, each with a queue of its own, so their storage calls interleave. Every `get`, `set` and
 `remove` is one atomic step here, and so is every moment at which a handler looks at the clock.
 */
module CaptureRelay {
  import opened Wrappers
  import opened CaptureText
  import opened CaptureStore

  datatype Request = Request(nonce: Text, tab: nat, origin: string, path: string)

  /**
   The pure decisions of the store as each context calls them. They are function values so that the
   argument about interleavings rests on their contracts (`Trusted`) alone; `Browser` is the real one.
   */
  datatype Config = Config(
    put: (RawPayload, Text, int) -> Option<Slot>,
    bind: (Slot, Text, nat, int) -> BindDecision,
    claim: (Slot, Request, int) -> ClaimDecision,
    clean: RawPayload -> Payload)

  function Target(origin: string, nonce: Text, tab: Option<int>): Binding {
    Binding(Some(nonce), tab, Some(origin), Some(CAPTURE_PAGE_PATH))
  }

  function RequestBinding(req: Request): Option<Binding> {
    NormalizeBinding(Binding(Some(req.nonce), Some(req.tab), Some(req.origin), Some(req.path)))
  }

  /** The store's decisions, for the hand-off origin of the installed manifest and URL clean-up `strip`. */
  function Browser(origin: string, strip: Text -> Text): Config {
    Config(
      (payload: RawPayload, n: Text, now: int) =>
        if IsValidNonce(n) && ValidPayload(payload) && origin in GROWTH_ORIGINS
        then Some(PutEntry(payload, Target(origin, n, None), now, strip)) else None,
      (seen: Slot, n: Text, tab: nat, now: int) =>
        DecideBind(seen, Target(origin, n, Some(tab)), now, DEFAULT_TTL_MS, strip),
      (seen: Slot, req: Request, now: int) => DecideClaim(seen, RequestBinding(req), now, DEFAULT_TTL_MS, strip),
      (payload: RawPayload) => SanitizePayload(payload, strip))
  }

  /** A put stores an unbound entry under the popup's own nonce. */
  ghost predicate PutTrusted(cfg: Config, payload: RawPayload, n: Text, now: int) {
    cfg.put(payload, n, now).Some? ==>
      cfg.put(payload, n, now).value.Entry? && IsValidNonce(n)
      && (var e := cfg.put(payload, n, now).value;
          && e.nonce == n && e.createdAt == now && e.tab == None && e.origin.Some? && e.path.Some?
          && e.payload == Raw(cfg.clean(payload)))
  }

  /** A bind writes only the entry it has read, under its own nonce, cleaned again and tied to its tab. */
  ghost predicate BindTrusted(cfg: Config, seen: Slot, n: Text, tab: nat, now: int) {
    cfg.bind(seen, n, tab, now).Write? && IsValidNonce(n) ==>
      && seen.Entry?
      && (IsValidNonce(seen.nonce) ==> seen.nonce == n)
      && (seen.nonce == n && seen.origin.Some? ==>
            cfg.bind(seen, n, tab, now).entry == seen.(tab := Some(tab), payload := Raw(cfg.clean(seen.payload))))
  }

  /** A claim delivers only a live entry, to a request with its nonce and, once bound, its tab. */
  ghost predicate ClaimTrusted(cfg: Config, seen: Slot, req: Request, now: int) {
    cfg.claim(seen, req, now).Deliver? && IsValidNonce(req.nonce) ==>
      && seen.Entry?
      && (IsValidNonce(seen.nonce) ==> seen.nonce == req.nonce)
      && (seen.tab.Some? ==> seen.tab == Some(req.tab))
      && 0 <= now - seen.createdAt <= DEFAULT_TTL_MS
      && (var payload := cfg.claim(seen, req, now).payload;
          payload == cfg.clean(seen.payload) && "businessName" in payload && payload["businessName"] != [])
  }

  ghost predicate Trusted(cfg: Config) {
    && (forall payload, n, now :: PutTrusted(cfg, payload, n, now))
    && (forall seen, n, tab, now :: BindTrusted(cfg, seen, n, tab, now))
    && (forall seen, req, now :: ClaimTrusted(cfg, seen, req, now))
  }

  lemma {:induction false} BrowserBind(origin: string, strip: Text -> Text, seen: Slot, n: Text, tab: nat, now: int)
    ensures BindTrusted(Browser(origin, strip), seen, n, tab, now)
  {
    if IsValidNonce(n) && DecideBind(seen, Target(origin, n, Some(tab)), now, DEFAULT_TTL_MS, strip).Write? {
      if IsValidNonce(seen.nonce) { NormalNonceIsFixed(seen.nonce); }
    }
  }

  lemma {:induction false} DeliveredToRequest(seen: Slot, req: Request, now: int, strip: Text -> Text)
    requires IsValidNonce(req.nonce)
    requires DecideClaim(seen, RequestBinding(req), now, DEFAULT_TTL_MS, strip).Deliver?
    ensures seen.Entry? && (IsValidNonce(seen.nonce) ==> seen.nonce == req.nonce)
    ensures (seen.tab.Some? ==> seen.tab == Some(req.tab)) && 0 <= now - seen.createdAt <= DEFAULT_TTL_MS
  {
    DeliveredOnlyToItsClaimant(seen, RequestBinding(req), now, DEFAULT_TTL_MS, strip);
    NormalNonceIsFixed(req.nonce);
    if IsValidNonce(seen.nonce) { NormalNonceIsFixed(seen.nonce); }
  }

  lemma {:induction false} DeliveredIsNamed(seen: Slot, b: Option<Binding>, now: int, strip: Text -> Text)
    requires DecideClaim(seen, b, now, DEFAULT_TTL_MS, strip).Deliver?
    ensures var payload := DecideClaim(seen, b, now, DEFAULT_TTL_MS, strip).payload;
      && payload == SanitizePayload(seen.payload, strip)
      && "businessName" in payload && payload["businessName"] != []
  {}

  lemma {:induction false} BrowserClaim(origin: string, strip: Text -> Text, seen: Slot, req: Request, now: int)
    ensures ClaimTrusted(Browser(origin, strip), seen, req, now)
  {
    if IsValidNonce(req.nonce) && DecideClaim(seen, RequestBinding(req), now, DEFAULT_TTL_MS, strip).Deliver? {
      DeliveredToRequest(seen, req, now, strip);
      DeliveredIsNamed(seen, RequestBinding(req), now, strip);
    }
  }

  lemma {:induction false} BrowserIsTrusted(origin: string, strip: Text -> Text)
    ensures Trusted(Browser(origin, strip))
  {
    var cfg := Browser(origin, strip);
    forall payload, n, now ensures PutTrusted(cfg, payload, n, now) {}
    forall seen, n, tab, now ensures BindTrusted(cfg, seen, n, tab, now) {
      BrowserBind(origin, strip, seen, n, tab, now);
    }
    forall seen, req, now ensures ClaimTrusted(cfg, seen, req, now) { BrowserClaim(origin, strip, seen, req, now); }
  }

  /** Where one press of "Continue" stands. */
  datatype Phase =
    | Storing
    | Stored
    | Opened(tab: nat)
    | BindRead(tab: nat, seen: Slot)
    | BindWrite(tab: nat, entry: Slot)
    | BindDrop
    | Bound(tab: nat)
    | Navigated(tab: nat)
    | Failing
    | Finished

  datatype Popup = Popup(payload: RawPayload, entry: Slot, phase: Phase)

  datatype Worker =
    | Idle
    | Reading(req: Request)
    | Deciding(req: Request, seen: Slot)
    | Removing(req: Request, taken: Option<(Payload, int)>)

  datatype Delivery = Delivery(nonce: Text, tab: nat, payload: Payload, at: int)

  /** `navigated` remembers which tab each popup sent to the capture page. */
  datatype Relay = Relay(
    clock: int,
    slot: Slot,
    popups: map<Text, Popup>,
    navigated: map<Text, nat>,
    queue: seq<Request>,
    worker: Worker,
    deliveries: seq<Delivery>)

  /** The parsed URL of a first-party capture page. */
  datatype CaptureUrl = CaptureUrl(origin: string, path: string, nonce: Text)
  datatype Sender = Sender(isExtension: bool, frameId: int, tabId: int, url: Option<CaptureUrl>)
  datatype Message = Message(nonce: Text, origin: string, path: string)

  datatype Action =
    | Clock(to: int)
    | Continue(nonce: Text, payload: RawPayload)
    | PutLands(nonce: Text)
    | TabOpens(nonce: Text, tab: nat)
    | BindReads(nonce: Text)
    | BindDecides(nonce: Text)
    | BindLands(nonce: Text)
    | BindDrops(nonce: Text)
    | Navigates(nonce: Text)
    | Fails(nonce: Text)
    | Clears(nonce: Text)
    | Asks(message: Message, sender: Sender)
    | ClaimStarts
    | ClaimReads
    | ClaimDecides
    | ClaimRemoves

  function Init(clock: int): Relay {
    Relay(clock, Absent, map[], map[], [], Idle, [])
  }

  /** What `parseCapturePageUrl` makes sure of. */
  predicate OfCapturePage(url: CaptureUrl) {
    IsValidNonce(url.nonce) && url.origin in GROWTH_ORIGINS && url.path == CAPTURE_PAGE_PATH
  }

  /** The worker's check of a claim message against the page that sent it. */
  function AllowedTarget(m: Message, sender: Sender): Option<Request> {
    if !sender.isExtension || sender.frameId != 0 || sender.tabId < 0 then None
    else if sender.url.None? || !OfCapturePage(sender.url.value) then None
    else
      var url := sender.url.value;
      if m.nonce != url.nonce || m.origin != url.origin || m.path != url.path then None
      else Some(Request(url.nonce, sender.tabId, url.origin, url.path))
  }

  function WithPhase(s: Relay, n: Text, phase: Phase): Relay
    requires n in s.popups
  {
    s.(popups := s.popups[n := s.popups[n].(phase := phase)])
  }

  /** One step of one popup. */
  function PopupStep(cfg: Config, s: Relay, n: Text, a: Action): Option<Relay>
    requires n in s.popups
  {
    var p := s.popups[n];
    match (a, p.phase)
    case (PutLands(_), Storing) => Some(WithPhase(s, n, Stored).(slot := p.entry))
    case (TabOpens(_, tab), Stored) => Some(WithPhase(s, n, Opened(tab)))
    case (BindReads(_), Opened(tab)) => Some(WithPhase(s, n, BindRead(tab, s.slot)))
    case (BindDecides(_), BindRead(tab, seen)) =>
      (match cfg.bind(seen, n, tab, s.clock)
       case Drop => Some(WithPhase(s, n, BindDrop))
       case Refuse => Some(WithPhase(s, n, Failing))
       case Write(entry) => Some(WithPhase(s, n, BindWrite(tab, entry))))
    case (BindLands(_), BindWrite(tab, entry)) => Some(WithPhase(s, n, Bound(tab)).(slot := entry))
    case (BindDrops(_), BindDrop) => Some(WithPhase(s, n, Failing).(slot := Absent))
    case (Navigates(_), Bound(tab)) => Some(WithPhase(s, n, Navigated(tab)).(navigated := s.navigated[n := tab]))
    case (Fails(_), Stored) => Some(WithPhase(s, n, Failing))
    case (Fails(_), Bound(_)) => Some(WithPhase(s, n, Failing))
    case (Fails(_), Navigated(_)) => Some(WithPhase(s, n, Failing))
    case (Clears(_), Failing) => Some(WithPhase(s, n, Finished).(slot := Absent))
    case _ => None
  }

  /** One step of the worker, which handles one claim at a time. */
  function WorkerStep(cfg: Config, s: Relay, a: Action): Option<Relay> {
    match (a, s.worker)
    case (ClaimStarts, Idle) =>
      if s.queue == [] then None else Some(s.(queue := s.queue[1..], worker := Reading(s.queue[0])))
    case (ClaimReads, Reading(req)) => Some(s.(worker := Deciding(req, s.slot)))
    case (ClaimDecides, Deciding(req, seen)) =>
      (match cfg.claim(seen, req, s.clock)
       case Discard => Some(s.(worker := Removing(req, None)))
       case Leave => Some(s.(worker := Idle))
       case Deliver(payload) => Some(s.(worker := Removing(req, Some((payload, s.clock))))))
    case (ClaimRemoves, Removing(req, taken)) =>
      var deliveries := if taken.Some?
        then s.deliveries + [Delivery(req.nonce, req.tab, taken.value.0, taken.value.1)] else s.deliveries;
      Some(s.(slot := Absent, worker := Idle, deliveries := deliveries))
    case _ => None
  }

  /** A request for the nonce waits in the queue or is being handled. */
  predicate Pending(s: Relay, n: Text) {
    (!s.worker.Idle? && s.worker.req.nonce == n) || exists i :: 0 <= i < |s.queue| && s.queue[i].nonce == n
  }

  /**
   The state after an action, None when the action cannot happen. A popup draws a nonce nobody has used,
   and no page has a popup's nonce in its URL before that popup has navigated; pages with nonces of their
   own may ask at any time.
   */
  function Step(cfg: Config, s: Relay, a: Action): Option<Relay> {
    match a
    case Clock(to) => Some(s.(clock := to))
    case Continue(n, payload) =>
      var entry := cfg.put(payload, n, s.clock);
      if n in s.popups || Pending(s, n) || entry.None? then None
      else Some(s.(popups := s.popups[n := Popup(payload, entry.value, Storing)]))
    case Asks(message, sender) =>
      if sender.url.Some? && sender.url.value.nonce in s.popups && sender.url.value.nonce !in s.navigated then None
      else
        var req := AllowedTarget(message, sender);
        if req.None? then Some(s) else Some(s.(queue := s.queue + [req.value]))
    case ClaimStarts => WorkerStep(cfg, s, a)
    case ClaimReads => WorkerStep(cfg, s, a)
    case ClaimDecides => WorkerStep(cfg, s, a)
    case ClaimRemoves => WorkerStep(cfg, s, a)
    case _ => if a.nonce in s.popups then PopupStep(cfg, s, a.nonce, a) else None
  }

  /** The state after a run, None when some action of it cannot happen. */
  function Exec(cfg: Config, s: Relay, run: seq<Action>): Option<Relay>
    decreases |run|
  {
    if run == [] then Some(s)
    else
      var next := Step(cfg, s, run[0]);
      if next.None? then None else Exec(cfg, next.value, run[1..])
  }

  // ---------------------------------------------------------------- what every step keeps

  /** `e` is the popup's entry, bound to `tab`. */
  ghost predicate BoundTo(cfg: Config, p: Popup, e: Slot, tab: nat) {
    && p.entry.Entry?
    && e == p.entry.(tab := Some(tab), payload := Raw(cfg.clean(p.entry.payload)))
  }

  ghost predicate PopupOk(cfg: Config, n: Text, p: Popup, navigated: map<Text, nat>) {
    && IsValidNonce(n)
    && p.entry.Entry? && p.entry.nonce == n && p.entry.origin.Some? && p.entry.payload == Raw(cfg.clean(p.payload))
    && cfg.put(p.payload, n, p.entry.createdAt) == Some(p.entry)
    && (p.phase.BindRead? && p.phase.seen.Entry? && p.phase.seen.nonce == n ==> p.phase.seen == p.entry)
    && (p.phase.BindRead? && p.phase.seen.Entry? ==> IsValidNonce(p.phase.seen.nonce))
    && (p.phase.BindWrite? ==> BoundTo(cfg, p, p.phase.entry, p.phase.tab))
    && (p.phase.Navigated? ==> n in navigated && navigated[n] == p.phase.tab)
    && (n in navigated ==> p.phase.Navigated? || p.phase.Failing? || p.phase.Finished?)
  }

  /** The slot holds an entry some popup stored, bound once that popup has bound it. */
  ghost predicate SlotOk(cfg: Config, popups: map<Text, Popup>, navigated: map<Text, nat>, slot: Slot) {
    && !slot.Malformed?
    && (slot.Entry? ==>
          && slot.nonce in popups
          && (var p := popups[slot.nonce];
              && !p.phase.Storing?
              && (p.phase.Stored? || p.phase.Opened? || p.phase.BindRead? || p.phase.BindWrite? || p.phase.BindDrop? ==>
                    slot == p.entry)
              && (p.phase.Bound? ==> BoundTo(cfg, p, slot, p.phase.tab))
              && (slot.nonce in navigated ==> BoundTo(cfg, p, slot, navigated[slot.nonce]))))
  }

  ghost predicate DeliveryOk(cfg: Config, popups: map<Text, Popup>, navigated: map<Text, nat>, d: Delivery) {
    && d.nonce in popups && d.nonce in navigated && navigated[d.nonce] == d.tab
    && (var p := popups[d.nonce];
        && p.entry.Entry?
        && 0 <= d.at - p.entry.createdAt <= DEFAULT_TTL_MS
        && d.payload == cfg.clean(Raw(cfg.clean(Raw(cfg.clean(p.payload)))))
        && "businessName" in d.payload && d.payload["businessName"] != [])
  }

  /** A request for a popup's nonce comes only after that popup has navigated. */
  ghost predicate RequestOk(popups: map<Text, Popup>, navigated: map<Text, nat>, req: Request) {
    && IsValidNonce(req.nonce) && req.origin in GROWTH_ORIGINS && req.path == CAPTURE_PAGE_PATH
    && (req.nonce in popups ==> req.nonce in navigated)
  }

  ghost predicate WorkerOk(cfg: Config, popups: map<Text, Popup>, navigated: map<Text, nat>, w: Worker) {
    && (!w.Idle? ==> RequestOk(popups, navigated, w.req))
    && (w.Deciding? && w.seen.Entry? ==> w.seen.nonce in popups)
    && (w.Deciding? && w.seen.Entry? && w.seen.nonce == w.req.nonce && w.seen.nonce in popups ==>
          BoundTo(cfg, popups[w.seen.nonce], w.seen, navigated[w.seen.nonce]))
    && (w.Removing? && w.taken.Some? ==>
          DeliveryOk(cfg, popups, navigated, Delivery(w.req.nonce, w.req.tab, w.taken.value.0, w.taken.value.1)))
  }

  /** The nonce is spent: the slot does not hold it and no claim in progress has read it. */
  ghost predicate Spent(slot: Slot, w: Worker, n: Text) {
    && !(slot.Entry? && slot.nonce == n)
    && !(w.Deciding? && w.seen.Entry? && w.seen.nonce == n)
    && !(w.Removing? && w.taken.Some? && w.req.nonce == n)
  }

  ghost predicate DeliveriesOk(cfg: Config, s: Relay) {
    && (forall i | 0 <= i < |s.deliveries| :: DeliveryOk(cfg, s.popups, s.navigated, s.deliveries[i]))
    && (forall i, j | 0 <= i < j < |s.deliveries| :: s.deliveries[i].nonce != s.deliveries[j].nonce)
    && (forall i | 0 <= i < |s.deliveries| :: Spent(s.slot, s.worker, s.deliveries[i].nonce))
  }

  ghost predicate Inv(cfg: Config, s: Relay) {
    && s.navigated.Keys <= s.popups.Keys
    && (forall n | n in s.popups :: PopupOk(cfg, n, s.popups[n], s.navigated))
    && SlotOk(cfg, s.popups, s.navigated, s.slot)
    && (forall i | 0 <= i < |s.queue| :: RequestOk(s.popups, s.navigated, s.queue[i]))
    && WorkerOk(cfg, s.popups, s.navigated, s.worker)
    && DeliveriesOk(cfg, s)
  }

  /** `navigated'` adds at most popup `n`'s navigation. */
  ghost predicate Navigation(navigated: map<Text, nat>, navigated': map<Text, nat>, n: Text) {
    && (forall m | m in navigated :: m in navigated' && navigated'[m] == navigated[m])
    && (forall m | m in navigated' :: m in navigated || m == n)
  }

  /** A popup's step touches its own record, and the slot only to clear it or to write its own entry. */
  ghost predicate OwnStep(s: Relay, s': Relay, n: Text) {
    && n in s.popups && n in s'.popups && s'.popups == s.popups[n := s'.popups[n]]
    && s'.popups[n].entry == s.popups[n].entry && s'.popups[n].payload == s.popups[n].payload
    && Navigation(s.navigated, s'.navigated, n)
    && (s'.slot == s.slot || s'.slot.Absent? || (s'.slot.Entry? && s'.slot.nonce == n && n !in s.navigated))
    && s'.queue == s.queue && s'.worker == s.worker && s'.deliveries == s.deliveries
  }

  lemma {:induction false} PopupStepIsOwn(cfg: Config, s: Relay, n: Text, a: Action)
    requires n in s.popups && PopupOk(cfg, n, s.popups[n], s.navigated) && PopupStep(cfg, s, n, a).Some?
    ensures OwnStep(s, PopupStep(cfg, s, n, a).value, n)
  {}

  lemma {:induction false} PopupUpdateKeepsInv(cfg: Config, s: Relay, s': Relay, n: Text)
    requires Inv(cfg, s) && OwnStep(s, s', n)
    requires PopupOk(cfg, n, s'.popups[n], s'.navigated) && SlotOk(cfg, s'.popups, s'.navigated, s'.slot)
    ensures Inv(cfg, s')
  {
    PopupsFrame(cfg, s, s', n);
    DeliveriesFrame(cfg, s, s', n);
  }

  lemma {:induction false} PopupsFrame(cfg: Config, s: Relay, s': Relay, n: Text)
    requires (forall m | m in s.popups :: PopupOk(cfg, m, s.popups[m], s.navigated)) && OwnStep(s, s', n)
    requires PopupOk(cfg, n, s'.popups[n], s'.navigated)
    ensures forall m | m in s'.popups :: PopupOk(cfg, m, s'.popups[m], s'.navigated)
  {
    forall m | m in s'.popups ensures PopupOk(cfg, m, s'.popups[m], s'.navigated) {
      assert PopupOk(cfg, m, s.popups[m], s.navigated);
    }
  }

  lemma {:induction false} DeliveriesFrame(cfg: Config, s: Relay, s': Relay, n: Text)
    requires DeliveriesOk(cfg, s) && OwnStep(s, s', n)
    ensures DeliveriesOk(cfg, s')
  {
    forall i | 0 <= i < |s'.deliveries|
      ensures DeliveryOk(cfg, s'.popups, s'.navigated, s'.deliveries[i])
      ensures Spent(s'.slot, s'.worker, s'.deliveries[i].nonce)
    {
      assert DeliveryOk(cfg, s.popups, s.navigated, s.deliveries[i]);
      assert Spent(s.slot, s.worker, s.deliveries[i].nonce);
    }
  }

  /** The popup's own record after one of its steps. */
  lemma {:induction false} PopupStepKeepsRecord(cfg: Config, s: Relay, n: Text, a: Action)
    requires Trusted(cfg) && n in s.popups && PopupOk(cfg, n, s.popups[n], s.navigated)
    requires SlotOk(cfg, s.popups, s.navigated, s.slot)
    requires s.slot.Entry? ==> IsValidNonce(s.slot.nonce)
    requires PopupStep(cfg, s, n, a).Some?
    ensures var s' := PopupStep(cfg, s, n, a).value;
      n in s'.popups && PopupOk(cfg, n, s'.popups[n], s'.navigated)
  {
    if s.popups[n].phase.BindRead? {
      assert BindTrusted(cfg, s.popups[n].phase.seen, n, s.popups[n].phase.tab, s.clock);
    }
  }

  /** The slot after one of a popup's steps. */
  lemma {:induction false} PopupStepKeepsSlot(cfg: Config, s: Relay, n: Text, a: Action)
    requires n in s.popups && PopupOk(cfg, n, s.popups[n], s.navigated)
    requires SlotOk(cfg, s.popups, s.navigated, s.slot)
    requires PopupStep(cfg, s, n, a).Some?
    ensures var s' := PopupStep(cfg, s, n, a).value;
      SlotOk(cfg, s'.popups, s'.navigated, s'.slot)
  {}

  lemma {:induction false} PopupStepKeepsInv(cfg: Config, s: Relay, n: Text, a: Action)
    requires Trusted(cfg) && Inv(cfg, s) && n in s.popups && PopupStep(cfg, s, n, a).Some?
    ensures Inv(cfg, PopupStep(cfg, s, n, a).value)
  {
    assert PopupOk(cfg, n, s.popups[n], s.navigated);
    if s.slot.Entry? { assert PopupOk(cfg, s.slot.nonce, s.popups[s.slot.nonce], s.navigated); }
    PopupStepIsOwn(cfg, s, n, a);
    PopupStepKeepsRecord(cfg, s, n, a);
    PopupStepKeepsSlot(cfg, s, n, a);
    PopupUpdateKeepsInv(cfg, s, PopupStep(cfg, s, n, a).value, n);
  }

  /** If the claim in progress is about to deliver, it delivers its own nonce's entry, and rightly. */
  ghost predicate ClaimSound(cfg: Config, s: Relay) {
    s.worker.Deciding? && cfg.claim(s.worker.seen, s.worker.req, s.clock).Deliver? ==>
      && s.worker.seen.Entry? && s.worker.seen.nonce == s.worker.req.nonce
      && DeliveryOk(cfg, s.popups, s.navigated, Delivery(
           s.worker.req.nonce, s.worker.req.tab, cfg.claim(s.worker.seen, s.worker.req, s.clock).payload, s.clock))
  }

  /** A claim delivers only what its own popup bound to the very tab that asks. */
  lemma {:induction false} ClaimTakesBoundEntry(cfg: Config, s: Relay)
    requires Trusted(cfg) && Inv(cfg, s)
    ensures ClaimSound(cfg, s)
  {
    if s.worker.Deciding? {
      var req, seen := s.worker.req, s.worker.seen;
      assert ClaimTrusted(cfg, seen, req, s.clock);
      if seen.Entry? {
        assert PopupOk(cfg, seen.nonce, s.popups[seen.nonce], s.navigated);
      }
    }
  }

  lemma {:induction false} WorkerStepKeepsSpent(cfg: Config, s: Relay, a: Action, n: Text)
    requires ClaimSound(cfg, s) && WorkerStep(cfg, s, a).Some? && Spent(s.slot, s.worker, n)
    ensures Spent(WorkerStep(cfg, s, a).value.slot, WorkerStep(cfg, s, a).value.worker, n)
  {}

  lemma {:induction false} WorkerStepKeepsDeliveries(cfg: Config, s: Relay, a: Action)
    requires ClaimSound(cfg, s) && WorkerOk(cfg, s.popups, s.navigated, s.worker) && DeliveriesOk(cfg, s)
    requires WorkerStep(cfg, s, a).Some?
    ensures DeliveriesOk(cfg, WorkerStep(cfg, s, a).value)
  {
    var s' := WorkerStep(cfg, s, a).value;
    forall i | 0 <= i < |s.deliveries| ensures Spent(s'.slot, s'.worker, s.deliveries[i].nonce) {
      assert Spent(s.slot, s.worker, s.deliveries[i].nonce);
      WorkerStepKeepsSpent(cfg, s, a, s.deliveries[i].nonce);
    }
  }

  lemma {:induction false} WorkerStepKeepsWorker(cfg: Config, s: Relay, a: Action)
    requires ClaimSound(cfg, s) && WorkerOk(cfg, s.popups, s.navigated, s.worker)
    requires SlotOk(cfg, s.popups, s.navigated, s.slot)
    requires forall i | 0 <= i < |s.queue| :: RequestOk(s.popups, s.navigated, s.queue[i])
    requires WorkerStep(cfg, s, a).Some?
    ensures var s' := WorkerStep(cfg, s, a).value;
      && WorkerOk(cfg, s'.popups, s'.navigated, s'.worker)
      && SlotOk(cfg, s'.popups, s'.navigated, s'.slot)
      && s'.popups == s.popups && s'.navigated == s.navigated
      && forall i | 0 <= i < |s'.queue| :: RequestOk(s'.popups, s'.navigated, s'.queue[i])
  {}

  lemma {:induction false} WorkerStepKeepsInv(cfg: Config, s: Relay, a: Action)
    requires Trusted(cfg) && Inv(cfg, s) && WorkerStep(cfg, s, a).Some?
    ensures Inv(cfg, WorkerStep(cfg, s, a).value)
  {
    ClaimTakesBoundEntry(cfg, s);
    WorkerStepKeepsWorker(cfg, s, a);
    WorkerStepKeepsDeliveries(cfg, s, a);
  }

  lemma {:induction false} ContinueKeepsInv(cfg: Config, s: Relay, n: Text, payload: RawPayload)
    requires Trusted(cfg) && Inv(cfg, s) && Step(cfg, s, Continue(n, payload)).Some?
    ensures Inv(cfg, Step(cfg, s, Continue(n, payload)).value)
  {
    var s' := Step(cfg, s, Continue(n, payload)).value;
    assert PutTrusted(cfg, payload, n, s.clock);
    forall m | m in s'.popups ensures PopupOk(cfg, m, s'.popups[m], s'.navigated) {
      if m != n { assert PopupOk(cfg, m, s.popups[m], s.navigated); }
    }
    forall i | 0 <= i < |s.deliveries| ensures DeliveryOk(cfg, s'.popups, s'.navigated, s.deliveries[i]) {
      assert DeliveryOk(cfg, s.popups, s.navigated, s.deliveries[i]);
    }
  }

  lemma {:induction false} StepKeepsInv(cfg: Config, s: Relay, a: Action)
    requires Trusted(cfg) && Inv(cfg, s) && Step(cfg, s, a).Some?
    ensures Inv(cfg, Step(cfg, s, a).value)
  {
    match a
    case Clock(_) =>
    case Continue(n, payload) => ContinueKeepsInv(cfg, s, n, payload);
    case Asks(_, _) =>
    case ClaimStarts => WorkerStepKeepsInv(cfg, s, a);
    case ClaimReads => WorkerStepKeepsInv(cfg, s, a);
    case ClaimDecides => WorkerStepKeepsInv(cfg, s, a);
    case ClaimRemoves => WorkerStepKeepsInv(cfg, s, a);
    case _ => PopupStepKeepsInv(cfg, s, a.nonce, a);
  }

  lemma {:induction false} RunKeepsInv(cfg: Config, s: Relay, run: seq<Action>)
    requires Trusted(cfg) && Inv(cfg, s) && Exec(cfg, s, run).Some?
    ensures Inv(cfg, Exec(cfg, s, run).value)
    decreases |run|
  {
    if run != [] {
      StepKeepsInv(cfg, s, run[0]);
      RunKeepsInv(cfg, Step(cfg, s, run[0]).value, run[1..]);
    }
  }

  // ---------------------------------------------------------------- safety of every run

  /**
   In every interleaving, each nonce is delivered at most once, and only to the tab its own popup sent
   to the capture page, within the time to live of its put; a popup's nonce is claimed only after that
   popup has navigated, whatever nonces other pages ask with.
   */
  lemma {:induction false} EveryRunIsSafe(origin: string, strip: Text -> Text, clock: int, run: seq<Action>)
    requires Exec(Browser(origin, strip), Init(clock), run).Some?
    ensures var s := Exec(Browser(origin, strip), Init(clock), run).value;
      && (forall i, j | 0 <= i < j < |s.deliveries| :: s.deliveries[i].nonce != s.deliveries[j].nonce)
      && (forall d | d in s.deliveries :: DeliveryOk(Browser(origin, strip), s.popups, s.navigated, d))
      && (forall n | n in s.popups && Pending(s, n) :: n in s.navigated)
  {
    BrowserIsTrusted(origin, strip);
    RunKeepsInv(Browser(origin, strip), Init(clock), run);
  }

  /** If `strip` leaves no credentials, no run delivers any. */
  lemma {:induction false} NoRunDeliversCredentials(
      origin: string, strip: Text -> Text, clock: int, run: seq<Action>, carries: Text -> bool)
    requires Exec(Browser(origin, strip), Init(clock), run).Some? && NeverLeft(strip, carries)
    ensures forall d | d in Exec(Browser(origin, strip), Init(clock), run).value.deliveries ::
      "pageUrl" in d.payload && !carries(d.payload["pageUrl"])
  {
    EveryRunIsSafe(origin, strip, clock, run);
    var s := Exec(Browser(origin, strip), Init(clock), run).value;
    forall d | d in s.deliveries ensures "pageUrl" in d.payload && !carries(d.payload["pageUrl"]) {
      assert DeliveryOk(Browser(origin, strip), s.popups, s.navigated, d);
      var twice := SanitizePayload(Raw(SanitizePayload(s.popups[d.nonce].payload, strip)), strip);
      CleanedFields(Raw(twice), strip);
      CleanUrlCarriesNothing(Raw(twice), strip, d.payload, carries);
    }
  }

  /** Once a popup has navigated, no step of anyone writes its nonce to the slot again. */
  lemma {:induction false} NoWriteAfterNavigation(cfg: Config, s: Relay, a: Action, n: Text)
    requires Trusted(cfg) && Inv(cfg, s) && Step(cfg, s, a).Some? && n in s.navigated
    ensures var after := Step(cfg, s, a).value.slot;
      after.Entry? && after.nonce == n ==> after == s.slot
    ensures n in Step(cfg, s, a).value.navigated
  {
    assert PopupOk(cfg, n, s.popups[n], s.navigated);
    if !a.Clock? && !a.Asks? && !ByWorker(a) && a.nonce in s.popups {
      assert PopupOk(cfg, a.nonce, s.popups[a.nonce], s.navigated);
    }
  }

  // ---------------------------------------------------------------- when a navigated capture is still delivered

  ghost predicate Delivered(s: Relay, n: Text) {
    exists d :: d in s.deliveries && d.nonce == n
  }

  /** The slot holds the nonce's entry, and it is not too old. */
  ghost predicate Unexpired(slot: Slot, n: Text, clock: int) {
    slot.Entry? && slot.nonce == n && clock - slot.createdAt <= DEFAULT_TTL_MS
  }

  /**
   What a delivery of the nonce still takes. With the worker idle, or about to read the slot: the slot
   holds its unexpired entry. With a claim that has read the slot: the claim is for it and can still
   succeed, or can end without emptying the slot while that holds the unexpired entry. With a claim
   about to empty the slot: it has taken the payload.
   */
  ghost predicate Deliverable(cfg: Config, s: Relay, n: Text) {
    match s.worker
    case Idle => Unexpired(s.slot, n, s.clock)
    case Reading(_) => Unexpired(s.slot, n, s.clock)
    case Deciding(req, seen) => exists t :: s.clock <= t && ClaimHelps(cfg, req, seen, s.slot, n, t)
    case Removing(req, taken) => req.nonce == n && taken.Some?
  }

  ghost predicate ClaimHelps(cfg: Config, req: Request, seen: Slot, slot: Slot, n: Text, t: int) {
    match cfg.claim(seen, req, t)
    case Deliver(_) => req.nonce == n
    case Leave => Unexpired(slot, n, t)
    case Discard => false
  }

  /** The clock does not go back. */
  ghost predicate Onward(s: Relay, a: Action) {
    a.Clock? ==> s.clock <= a.to
  }

  ghost predicate Forward(cfg: Config, s: Relay, run: seq<Action>)
    decreases |run|
  {
    run == [] ||
    (Onward(s, run[0])
     && Step(cfg, s, run[0]).Some? && Forward(cfg, Step(cfg, s, run[0]).value, run[1..]))
  }

  /** Some continuation delivers the nonce. */
  ghost predicate Reaches(cfg: Config, s: Relay, n: Text) {
    exists run :: Forward(cfg, s, run) && Exec(cfg, s, run).Some? && Delivered(Exec(cfg, s, run).value, n)
  }

  ghost predicate ByWorker(a: Action) {
    a.ClaimStarts? || a.ClaimReads? || a.ClaimDecides? || a.ClaimRemoves?
  }

  /** The popups and the page leave the worker and its deliveries alone. */
  lemma {:induction false} OthersLeaveWorker(cfg: Config, s: Relay, a: Action)
    requires !ByWorker(a) && Step(cfg, s, a).Some?
    ensures Step(cfg, s, a).value.worker == s.worker && Step(cfg, s, a).value.deliveries == s.deliveries
    ensures !a.Clock? ==> Step(cfg, s, a).value.clock == s.clock
  {}

  /** A claim that reads the slot and then helps found the unexpired entry there. */
  lemma {:induction false} HelpingClaimFoundEntry(cfg: Config, s: Relay, req: Request, n: Text, t: int)
    requires Trusted(cfg) && Inv(cfg, s) && IsValidNonce(req.nonce)
    requires s.clock <= t && ClaimHelps(cfg, req, s.slot, s.slot, n, t)
    ensures Unexpired(s.slot, n, s.clock)
  {
    assert ClaimTrusted(cfg, s.slot, req, t);
    if s.slot.Entry? { assert PopupOk(cfg, s.slot.nonce, s.popups[s.slot.nonce], s.navigated); }
  }

  lemma {:induction false} WorkerStepNeedsDeliverable(cfg: Config, s: Relay, a: Action, n: Text)
    requires Trusted(cfg) && Inv(cfg, s) && WorkerStep(cfg, s, a).Some?
    requires Deliverable(cfg, WorkerStep(cfg, s, a).value, n) || Delivered(WorkerStep(cfg, s, a).value, n)
    ensures Deliverable(cfg, s, n) || Delivered(s, n)
  {
    var s' := WorkerStep(cfg, s, a).value;
    match s.worker
    case Idle =>
    case Reading(req) =>
      if Deliverable(cfg, s', n) {
        var t :| s'.clock <= t && ClaimHelps(cfg, req, s.slot, s.slot, n, t);
        HelpingClaimFoundEntry(cfg, s, req, n, t);
      }
    case Deciding(req, seen) =>
      if Deliverable(cfg, s', n) { assert ClaimHelps(cfg, req, seen, s.slot, n, s.clock); }
    case Removing(_, _) =>
      if Delivered(s', n) && !Delivered(s, n) {
        var d :| d in s'.deliveries && d.nonce == n;
        assert d !in s.deliveries;
      }
  }

  lemma {:induction false} OtherStepNeedsDeliverable(cfg: Config, s: Relay, a: Action, n: Text)
    requires Trusted(cfg) && Inv(cfg, s) && n in s.navigated && !ByWorker(a) && Onward(s, a)
    requires Step(cfg, s, a).Some? && Deliverable(cfg, Step(cfg, s, a).value, n)
    ensures Deliverable(cfg, s, n)
  {
    NoWriteAfterNavigation(cfg, s, a, n);
    OthersLeaveWorker(cfg, s, a);
    var s' := Step(cfg, s, a).value;
    if s.worker.Deciding? {
      var t :| s'.clock <= t && ClaimHelps(cfg, s.worker.req, s.worker.seen, s'.slot, n, t);
      assert ClaimHelps(cfg, s.worker.req, s.worker.seen, s.slot, n, t);
    }
  }

  lemma {:induction false} StepNeedsDeliverable(cfg: Config, s: Relay, a: Action, n: Text)
    requires Trusted(cfg) && Inv(cfg, s) && n in s.navigated && Onward(s, a) && Step(cfg, s, a).Some?
    requires Deliverable(cfg, Step(cfg, s, a).value, n) || Delivered(Step(cfg, s, a).value, n)
    ensures Deliverable(cfg, s, n) || Delivered(s, n)
  {
    if ByWorker(a) {
      WorkerStepNeedsDeliverable(cfg, s, a, n);
    } else {
      OthersLeaveWorker(cfg, s, a);
      if Deliverable(cfg, Step(cfg, s, a).value, n) { OtherStepNeedsDeliverable(cfg, s, a, n); }
    }
  }

  /** No run brings back a delivery once it is out of reach. */
  lemma {:induction false} RunNeedsDeliverable(cfg: Config, s: Relay, run: seq<Action>, n: Text)
    requires Trusted(cfg) && Inv(cfg, s) && n in s.navigated
    requires Forward(cfg, s, run) && Exec(cfg, s, run).Some? && Delivered(Exec(cfg, s, run).value, n)
    ensures Deliverable(cfg, s, n) || Delivered(s, n)
    decreases |run|
  {
    if run != [] {
      var s' := Step(cfg, s, run[0]).value;
      StepKeepsInv(cfg, s, run[0]);
      NoWriteAfterNavigation(cfg, s, run[0], n);
      RunNeedsDeliverable(cfg, s', run[1..], n);
      StepNeedsDeliverable(cfg, s, run[0], n);
    }
  }

  // ---------------------------------------------------------------- a run that delivers

  ghost function BoundEntry(cfg: Config, e: Slot, tab: nat): Slot
    requires e.Entry?
  {
    e.(tab := Some(tab), payload := Raw(cfg.clean(e.payload)))
  }

  /** A put entry, once bound, is delivered to its own tab while it lives, and no claim discards it. */
  ghost predicate Answers(cfg: Config, payload: RawPayload, n: Text, put: int, tab: nat, now: int) {
    var entry := cfg.put(payload, n, put);
    entry.Some? && entry.value.Entry? && entry.value.origin.Some? && entry.value.path.Some?
    && put <= now <= put + DEFAULT_TTL_MS ==>
      && entry.value.origin.value in GROWTH_ORIGINS && entry.value.path.value == CAPTURE_PAGE_PATH
      && cfg.claim(BoundEntry(cfg, entry.value, tab),
                   Request(n, tab, entry.value.origin.value, entry.value.path.value), now).Deliver?
      && forall req :: !cfg.claim(BoundEntry(cfg, entry.value, tab), req, now).Discard?
  }

  ghost predicate Answering(cfg: Config) {
    forall payload, n, put, tab, now :: Answers(cfg, payload, n, put, tab, now)
  }

  lemma {:induction false} BoundAnswers(
      origin: string, strip: Text -> Text, payload: RawPayload, n: Text, put: int, tab: nat, now: int, entry: Slot,
      bound: Slot)
    requires ValidPayload(payload) && IsValidNonce(n) && origin in GROWTH_ORIGINS
    requires put <= now <= put + DEFAULT_TTL_MS && entry == PutEntry(payload, Target(origin, n, None), put, strip)
    requires DecideBind(entry, Target(origin, n, Some(tab)), put, DEFAULT_TTL_MS, strip) == Write(bound)
    ensures DecideClaim(bound, RequestBinding(Request(n, tab, origin, CAPTURE_PAGE_PATH)), now, DEFAULT_TTL_MS,
                        strip).Deliver?
    ensures forall b :: !DecideClaim(bound, b, now, DEFAULT_TTL_MS, strip).Discard?
  {
    PutBindClaimDelivers(payload, n, origin, tab, put, put, now, DEFAULT_TTL_MS, strip);
    NormalNonceIsFixed(n);
    var target := Target(origin, n, Some(tab));
    assert RequestBinding(Request(n, tab, origin, CAPTURE_PAGE_PATH)) == Some(target);
    DeliveredOnlyToItsClaimant(bound, Some(target), now, DEFAULT_TTL_MS, strip);
  }

  lemma {:induction false} BoundByBrowser(
      origin: string, strip: Text -> Text, payload: RawPayload, n: Text, put: int, tab: nat, entry: Slot)
    requires ValidPayload(payload) && IsValidNonce(n) && origin in GROWTH_ORIGINS
    requires entry == PutEntry(payload, Target(origin, n, None), put, strip)
    ensures DecideBind(entry, Target(origin, n, Some(tab)), put, DEFAULT_TTL_MS, strip)
         == Write(BoundEntry(Browser(origin, strip), entry, tab))
  {
    PutBindClaimDelivers(payload, n, origin, tab, put, put, put, DEFAULT_TTL_MS, strip);
    BrowserBind(origin, strip, entry, n, tab, put);
  }

  lemma {:induction false} BrowserAnswers(
      origin: string, strip: Text -> Text, payload: RawPayload, n: Text, put: int, tab: nat, now: int)
    ensures Answers(Browser(origin, strip), payload, n, put, tab, now)
  {
    var cfg := Browser(origin, strip);
    if cfg.put(payload, n, put).Some? && put <= now <= put + DEFAULT_TTL_MS {
      var entry := PutEntry(payload, Target(origin, n, None), put, strip);
      var bound := BoundEntry(cfg, entry, tab);
      BoundByBrowser(origin, strip, payload, n, put, tab, entry);
      BoundAnswers(origin, strip, payload, n, put, tab, now, entry, bound);
      assert forall req :: cfg.claim(bound, req, now)
                        == DecideClaim(bound, RequestBinding(req), now, DEFAULT_TTL_MS, strip);
    }
  }

  lemma {:induction false} BrowserIsAnswering(origin: string, strip: Text -> Text)
    ensures Answering(Browser(origin, strip))
  {
    forall payload, n, put, tab, now ensures Answers(Browser(origin, strip), payload, n, put, tab, now) {
      BrowserAnswers(origin, strip, payload, n, put, tab, now);
    }
  }

  lemma {:induction false} ReachesByStep(cfg: Config, s: Relay, a: Action, n: Text)
    requires Onward(s, a) && Step(cfg, s, a).Some? && Reaches(cfg, Step(cfg, s, a).value, n)
    ensures Reaches(cfg, s, n)
  {
    var s' := Step(cfg, s, a).value;
    var run :| Forward(cfg, s', run) && Exec(cfg, s', run).Some? && Delivered(Exec(cfg, s', run).value, n);
    assert ([a] + run)[0] == a && ([a] + run)[1..] == run;
    assert Forward(cfg, s, [a] + run);
    assert Exec(cfg, s, [a] + run) == Exec(cfg, s', run);
  }

  lemma {:induction false} DeliveredReaches(cfg: Config, s: Relay, n: Text)
    requires Delivered(s, n)
    ensures Reaches(cfg, s, n)
  {
    assert Forward(cfg, s, []) && Exec(cfg, s, []) == Some(s);
  }

  lemma {:induction false} TakenReaches(cfg: Config, s: Relay, n: Text)
    requires s.worker.Removing? && s.worker.req.nonce == n && s.worker.taken.Some?
    ensures Reaches(cfg, s, n)
  {
    var s' := Step(cfg, s, ClaimRemoves).value;
    assert s'.deliveries[|s.deliveries|].nonce == n;
    DeliveredReaches(cfg, s', n);
    ReachesByStep(cfg, s, ClaimRemoves, n);
  }

  lemma {:induction false} AcceptedReaches(cfg: Config, s: Relay, n: Text)
    requires s.worker.Deciding? && s.worker.req.nonce == n
    requires cfg.claim(s.worker.seen, s.worker.req, s.clock).Deliver?
    ensures Reaches(cfg, s, n)
  {
    TakenReaches(cfg, Step(cfg, s, ClaimDecides).value, n);
    ReachesByStep(cfg, s, ClaimDecides, n);
  }

  /** The slot's entry is its popup's, bound to the tab it navigated, and answers while it lives. */
  lemma {:induction false} SlotAnswers(cfg: Config, s: Relay, n: Text)
    requires Trusted(cfg) && Answering(cfg) && Inv(cfg, s) && n in s.navigated && Unexpired(s.slot, n, s.clock)
    requires s.slot.createdAt <= s.clock
    ensures s.slot.origin.Some? && s.slot.path.Some?
    ensures s.slot.origin.value in GROWTH_ORIGINS && s.slot.path.value == CAPTURE_PAGE_PATH && IsValidNonce(n)
    ensures cfg.claim(s.slot, Request(n, s.navigated[n], s.slot.origin.value, s.slot.path.value), s.clock).Deliver?
    ensures forall req :: !cfg.claim(s.slot, req, s.clock).Discard?
  {
    var p := s.popups[n];
    assert PopupOk(cfg, n, p, s.navigated);
    assert PutTrusted(cfg, p.payload, n, p.entry.createdAt);
    assert Answers(cfg, p.payload, n, p.entry.createdAt, s.navigated[n], s.clock);
    assert s.slot == BoundEntry(cfg, p.entry, s.navigated[n]);
  }

  /** The time at which the slot's entry, if not expired, is live: now, or when it was created. */
  ghost function LiveFrom(s: Relay): int
    requires s.slot.Entry?
  {
    if s.clock < s.slot.createdAt then s.slot.createdAt else s.clock
  }

  lemma {:induction false} ReadingReaches(cfg: Config, s: Relay, n: Text)
    requires Trusted(cfg) && Answering(cfg) && Inv(cfg, s) && n in s.navigated && Unexpired(s.slot, n, s.clock)
    requires s.worker.Reading? && s.slot.createdAt <= s.clock
    ensures Reaches(cfg, s, n)
    decreases |s.queue|, 1
  {
    var req, s1 := s.worker.req, Step(cfg, s, ClaimReads).value;
    SlotAnswers(cfg, s, n);
    StepKeepsInv(cfg, s, ClaimReads);
    assert ClaimTrusted(cfg, s.slot, req, s.clock);
    if cfg.claim(s.slot, req, s.clock).Deliver? {
      AcceptedReaches(cfg, s1, n);
    } else {
      StepKeepsInv(cfg, s1, ClaimDecides);
      IdleReaches(cfg, Step(cfg, s1, ClaimDecides).value, n);
      ReachesByStep(cfg, s1, ClaimDecides, n);
    }
    ReachesByStep(cfg, s, ClaimReads, n);
  }

  lemma {:induction false} IdleReaches(cfg: Config, s: Relay, n: Text)
    requires Trusted(cfg) && Answering(cfg) && Inv(cfg, s) && n in s.navigated && Unexpired(s.slot, n, s.clock)
    requires s.worker.Idle? && s.slot.createdAt <= s.clock
    ensures Reaches(cfg, s, n)
    decreases |s.queue|, 0
  {
    if s.queue == [] {
      AskingReaches(cfg, s, n);
    } else {
      StepKeepsInv(cfg, s, ClaimStarts);
      ReadingReaches(cfg, Step(cfg, s, ClaimStarts).value, n);
      ReachesByStep(cfg, s, ClaimStarts, n);
    }
  }

  /** With nobody else waiting, the page asks and is answered. */
  lemma {:induction false} AskingReaches(cfg: Config, s: Relay, n: Text)
    requires Trusted(cfg) && Answering(cfg) && Inv(cfg, s) && n in s.navigated && Unexpired(s.slot, n, s.clock)
    requires s.worker.Idle? && s.slot.createdAt <= s.clock && s.queue == []
    ensures Reaches(cfg, s, n)
  {
    SlotAnswers(cfg, s, n);
    AskedReaches(cfg, s, n, s.navigated[n], s.slot.origin.value, s.slot.path.value);
  }

  lemma {:induction false} AskedReaches(cfg: Config, s: Relay, n: Text, tab: nat, origin: string, path: string)
    requires s.worker.Idle? && s.queue == [] && n in s.navigated
    requires IsValidNonce(n) && origin in GROWTH_ORIGINS && path == CAPTURE_PAGE_PATH
    requires cfg.claim(s.slot, Request(n, tab, origin, path), s.clock).Deliver?
    ensures Reaches(cfg, s, n)
  {
    var asks := Asks(Message(n, origin, path), Sender(true, 0, tab, Some(CaptureUrl(origin, path, n))));
    var s1 := Step(cfg, s, asks).value;
    assert s1.queue == [Request(n, tab, origin, path)];
    var s2 := Step(cfg, s1, ClaimStarts).value;
    var s3 := Step(cfg, s2, ClaimReads).value;
    AcceptedReaches(cfg, s3, n);
    ReachesByStep(cfg, s2, ClaimReads, n);
    ReachesByStep(cfg, s1, ClaimStarts, n);
    ReachesByStep(cfg, s, asks, n);
  }

  lemma {:induction false} UnexpiredReaches(cfg: Config, s: Relay, n: Text)
    requires Trusted(cfg) && Answering(cfg) && Inv(cfg, s) && n in s.navigated && Unexpired(s.slot, n, s.clock)
    requires s.worker.Idle? || s.worker.Reading?
    ensures Reaches(cfg, s, n)
  {
    var wait := Clock(LiveFrom(s));
    var s1 := Step(cfg, s, wait).value;
    if s.worker.Idle? { IdleReaches(cfg, s1, n); } else { ReadingReaches(cfg, s1, n); }
    ReachesByStep(cfg, s, wait, n);
  }

  lemma {:induction false} DeliverableReaches(cfg: Config, s: Relay, n: Text)
    requires Trusted(cfg) && Answering(cfg) && Inv(cfg, s) && n in s.navigated && Deliverable(cfg, s, n)
    ensures Reaches(cfg, s, n)
  {
    match s.worker
    case Idle => UnexpiredReaches(cfg, s, n);
    case Reading(_) => UnexpiredReaches(cfg, s, n);
    case Deciding(req, seen) =>
      var t :| s.clock <= t && ClaimHelps(cfg, req, seen, s.slot, n, t);
      DecidingReaches(cfg, Step(cfg, s, Clock(t)).value, n);
      ReachesByStep(cfg, s, Clock(t), n);
    case Removing(_, _) => TakenReaches(cfg, s, n);
  }

  lemma {:induction false} DecidingReaches(cfg: Config, s: Relay, n: Text)
    requires Trusted(cfg) && Answering(cfg) && Inv(cfg, s) && n in s.navigated && s.worker.Deciding?
    requires ClaimHelps(cfg, s.worker.req, s.worker.seen, s.slot, n, s.clock)
    ensures Reaches(cfg, s, n)
  {
    if cfg.claim(s.worker.seen, s.worker.req, s.clock).Deliver? {
      AcceptedReaches(cfg, s, n);
    } else {
      var s1 := Step(cfg, s, ClaimDecides).value;
      StepKeepsInv(cfg, s, ClaimDecides);
      UnexpiredReaches(cfg, s1, n);
      ReachesByStep(cfg, s, ClaimDecides, n);
    }
  }

  /**
   In every reachable state, a capture that has navigated and is not delivered yet is delivered by some
   continuation in which the clock does not go back if and only if it is deliverable. With the worker
   idle that says: the slot holds its entry, and it has not expired.
   */
  lemma {:induction false} DeliveredExactlyIfDeliverable(
      origin: string, strip: Text -> Text, clock: int, run: seq<Action>, n: Text)
    requires Exec(Browser(origin, strip), Init(clock), run).Some?
    requires n in Exec(Browser(origin, strip), Init(clock), run).value.navigated
    requires !Delivered(Exec(Browser(origin, strip), Init(clock), run).value, n)
    ensures var s := Exec(Browser(origin, strip), Init(clock), run).value;
      && (Reaches(Browser(origin, strip), s, n) <==> Deliverable(Browser(origin, strip), s, n))
      && (s.worker.Idle? ==> (Reaches(Browser(origin, strip), s, n) <==> Unexpired(s.slot, n, s.clock)))
  {
    var cfg := Browser(origin, strip);
    BrowserIsTrusted(origin, strip);
    BrowserIsAnswering(origin, strip);
    RunKeepsInv(cfg, Init(clock), run);
    ReachesExactly(cfg, Exec(cfg, Init(clock), run).value, n);
  }

  lemma {:induction false} ReachesExactly(cfg: Config, s: Relay, n: Text)
    requires Trusted(cfg) && Answering(cfg) && Inv(cfg, s) && n in s.navigated && !Delivered(s, n)
    ensures Reaches(cfg, s, n) <==> Deliverable(cfg, s, n)
    ensures s.worker.Idle? ==> (Reaches(cfg, s, n) <==> Unexpired(s.slot, n, s.clock))
  {
    if Deliverable(cfg, s, n) { DeliverableReaches(cfg, s, n); }
    if run :| Forward(cfg, s, run) && Exec(cfg, s, run).Some? && Delivered(Exec(cfg, s, run).value, n) {
      RunNeedsDeliverable(cfg, s, run, n);
    }
  }

  /** The popup navigated, but its capture is neither delivered nor deliverable any more. */
  ghost predicate Lost(cfg: Config, s: Relay, n: Text) {
    n in s.navigated && !Delivered(s, n) && !Deliverable(cfg, s, n)
  }

  lemma {:induction false} ExecExtends(cfg: Config, s: Relay, run: seq<Action>, a: Action)
    requires Exec(cfg, s, run).Some?
    ensures Exec(cfg, s, run + [a]) == Step(cfg, Exec(cfg, s, run).value, a)
    decreases |run|
  {
    if run == [] {
      assert run + [a] == [a];
      var next := Step(cfg, s, a);
      if next.Some? { assert Exec(cfg, next.value, []) == next; }
    } else {
      assert (run + [a])[0] == run[0] && (run + [a])[1..] == run[1..] + [a];
      ExecExtends(cfg, Step(cfg, s, run[0]).value, run[1..], a);
    }
  }

  /** One popup's steps up to the point where its binding is about to be written. */
  lemma {:induction false} HandOffRun(cfg: Config, payload: RawPayload, n: Text, tab: nat, entry: Slot, bound: Slot)
    returns (run: seq<Action>)
    requires cfg.put(payload, n, 0) == Some(entry) && cfg.bind(entry, n, tab, 0) == Write(bound)
    ensures Exec(cfg, Init(0), run) ==
      Some(Init(0).(slot := entry, popups := map[n := Popup(payload, entry, BindWrite(tab, bound))]))
  {
    var s := Init(0);
    run := [];
    ExecExtends(cfg, Init(0), run, Continue(n, payload));
    run := run + [Continue(n, payload)];
    ExecExtends(cfg, Init(0), run, PutLands(n));
    run := run + [PutLands(n)];
    ExecExtends(cfg, Init(0), run, TabOpens(n, tab));
    run := run + [TabOpens(n, tab)];
    ExecExtends(cfg, Init(0), run, BindReads(n));
    run := run + [BindReads(n)];
    ExecExtends(cfg, Init(0), run, BindDecides(n));
    run := run + [BindDecides(n)];
    assert Exec(cfg, Init(0), run).value.popups == map[n := Popup(payload, entry, BindWrite(tab, bound))];
  }

  /** A second popup stores its capture after the first one's binding and before its navigation. */
  lemma {:induction false} OverlapRun(
      cfg: Config, payload: RawPayload, later: RawPayload, first: Text, second: Text, tab: nat, entry: Slot,
      bound: Slot, other: Slot)
    returns (run: seq<Action>)
    requires first != second && other.Entry? && other.nonce == second
    requires cfg.put(payload, first, 0) == Some(entry) && cfg.bind(entry, first, tab, 0) == Write(bound)
    requires cfg.put(later, second, 0) == Some(other)
    ensures Exec(cfg, Init(0), run).Some? && Lost(cfg, Exec(cfg, Init(0), run).value, first)
  {
    run := HandOffRun(cfg, payload, first, tab, entry, bound);
    ExecExtends(cfg, Init(0), run, BindLands(first));
    run := run + [BindLands(first)];
    ExecExtends(cfg, Init(0), run, Continue(second, later));
    run := run + [Continue(second, later)];
    ExecExtends(cfg, Init(0), run, PutLands(second));
    run := run + [PutLands(second)];
    ExecExtends(cfg, Init(0), run, Navigates(first));
    run := run + [Navigates(first)];
  }

  /** Any two captures can overlap so that the first is lost: the second one's put displaces it. */
  lemma {:induction false} OverlapCanLose(
      origin: string, strip: Text -> Text, payload: RawPayload, later: RawPayload, first: Text, second: Text,
      tab: nat)
    returns (run: seq<Action>)
    requires origin in GROWTH_ORIGINS && ValidPayload(payload) && ValidPayload(later)
    requires IsValidNonce(first) && IsValidNonce(second) && first != second
    ensures Exec(Browser(origin, strip), Init(0), run).Some?
    ensures Lost(Browser(origin, strip), Exec(Browser(origin, strip), Init(0), run).value, first)
    ensures !Reaches(Browser(origin, strip), Exec(Browser(origin, strip), Init(0), run).value, first)
  {
    PutBindClaimDelivers(payload, first, origin, tab, 0, 0, 0, DEFAULT_TTL_MS, strip);
    var entry := PutEntry(payload, Target(origin, first, None), 0, strip);
    var bound := DecideBind(entry, Target(origin, first, Some(tab)), 0, DEFAULT_TTL_MS, strip).entry;
    var other := PutEntry(later, Target(origin, second, None), 0, strip);
    run := OverlapRun(Browser(origin, strip), payload, later, first, second, tab, entry, bound, other);
    DeliveredExactlyIfDeliverable(origin, strip, 0, run, first);
  }
}
