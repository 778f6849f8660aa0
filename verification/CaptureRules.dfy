/**
 What the store makes of payloads, nonces, bindings and the slot, told from their fields alone: the rules that
 its decisions follow.
 */
module CaptureRules {
  import opened Wrappers
  import opened CaptureText
  import opened CaptureStore
  import opened CaptureRelay

  // ---------------------------------------------------------------- payloads

  ghost predicate IsBlank(s: Text) {
    forall i | 0 <= i < |s| :: IsSpace(s[i])
  }

  /** The fields known, each a text within its limit or undefined, and a business name that is not blank. */
  ghost predicate Acceptable(payload: RawPayload) {
    && payload.Fields?
    && (forall f | f in payload.values ::
          && f in FIELD_NAMES
          && match payload.values[f]
             case Undefined => true
             case Str(text) => |text| <= LimitOf(f)
             case Other => false)
    && "businessName" in payload.values && payload.values["businessName"].Str?
    && !IsBlank(payload.values["businessName"].text)
  }

  lemma {:induction false} BlankIsEmptied(s: Text)
    ensures Trim(s) == [] <==> IsBlank(s)
  {
    if IsBlank(s) {
      assert OnlySpaceAround(s, 0, 0) && s[0..0] == [];
      TrimIsUnique(s, []);
    }
    TrimTakesOnlySpace(s);
    var i: nat, j: nat :| OnlySpaceAround(s, i, j) && Trim(s) == s[i..j];
  }

  lemma {:induction false} FieldMeans(payload: RawPayload, f: string)
    requires payload.Fields? && f in FIELD_NAMES
    ensures f in FIELD_LIMITS
    ensures FieldOk(payload.values, f) <==>
      f in payload.values ==>
        match payload.values[f]
        case Undefined => true
        case Str(text) => |text| <= LimitOf(f)
        case Other => false
  {}

  /** Which payloads are accepted. */
  lemma {:induction false} PayloadRule(payload: RawPayload)
    ensures ValidPayload(payload) <==> Acceptable(payload)
  {
    assert FIELD_LIMITS.Keys == FIELD_NAMES;
    if payload.Fields? {
      BlankIsEmptied(AsText(payload.values, "businessName"));
      forall f | f in FIELD_NAMES
        ensures FieldOk(payload.values, f) <==>
          f in payload.values ==>
            match payload.values[f]
            case Undefined => true
            case Str(text) => |text| <= LimitOf(f)
            case Other => false
      {
        FieldMeans(payload, f);
      }
    }
  }

  // ---------------------------------------------------------------- nonces

  /** `n` is `t` with its capital letters made small. */
  ghost predicate IsLowered(t: Text, n: Text) {
    |t| == |n| && forall i | 0 <= i < |t| :: n[i] == if 65 <= t[i] <= 90 then t[i] + 32 else t[i]
  }

  /** Thirty-two digits or letters from a to f. */
  ghost predicate IsNonce(n: Text) {
    |n| == 32 && forall i | 0 <= i < 32 :: 48 <= n[i] <= 57 || 97 <= n[i] <= 102
  }

  /** The text is the nonce, but for white space around it and capital letters. */
  ghost predicate Spells(value: Text, n: Text) {
    IsNonce(n) && exists t :: IsTrim(value, t) && IsLowered(t, n)
  }

  lemma {:induction false} LowerIs(s: Text)
    ensures IsLowered(s, LowerAscii(s))
  {
    if s != [] {
      LowerIs(s[1..]);
      assert forall i | 1 <= i < |s| :: LowerAscii(s)[i] == LowerAscii(s[1..])[i - 1] && s[i] == s[1..][i - 1];
    }
  }

  lemma {:induction false} LoweredIsUnique(s: Text, n: Text)
    requires IsLowered(s, n)
    ensures n == LowerAscii(s)
  {
    LowerIs(s);
  }

  /** Which nonce a text is read as. */
  lemma {:induction false} NonceRule(value: Text, n: Text)
    ensures NormalizeNonce(Some(value)) == Some(n) <==> Spells(value, n)
    ensures NormalizeNonce(None) == None
  {
    TrimTakesOnlySpace(value);
    LowerIs(Trim(value));
    if Spells(value, n) {
      var t :| IsTrim(value, t) && IsLowered(t, n);
      TrimIsUnique(value, t);
      LoweredIsUnique(t, n);
    }
  }

  // ---------------------------------------------------------------- bindings and entries

  ghost predicate IsGrowth(origin: string) {
    origin == "https://growth.easymod.tech" || origin == "http://127.0.0.1:5175"
  }

  /** A nonce that is spelled, a tab that can exist, an origin of ours, the capture page. */
  ghost predicate Binds(b: Binding, n: Text) {
    && b.nonce.Some? && Spells(b.nonce.value, n)
    && (b.tab.Some? ==> b.tab.value >= 0)
    && (b.origin.Some? ==> IsGrowth(b.origin.value))
    && (b.path.Some? ==> b.path.value == "/capture")
  }

  /** Which bindings are accepted, and as what. */
  lemma {:induction false} BindingRule(b: Binding, n: Text)
    ensures NormalizeBinding(b) == Some(b.(nonce := Some(n))) <==> Binds(b, n)
    ensures NormalizeBinding(b).Some? ==>
      var nonce := NormalizeBinding(b).value.nonce;
      nonce.Some? && NormalizeBinding(b) == Some(b.(nonce := nonce))
  {
    if b.nonce.Some? { NonceRule(b.nonce.value, n); }
  }

  /** An entry no older than the time to live, with a target that is whole or absent, a tab and a payload. */
  ghost predicate Usable(slot: Slot, now: int, ttl: nat, n: Text) {
    && slot.Entry? && Spells(slot.nonce, n)
    && slot.createdAt <= now && now <= slot.createdAt + ttl
    && (slot.tab.Some? ==> slot.tab.value >= 0)
    && (match (slot.origin, slot.path)
        case (Some(origin), Some(path)) => IsGrowth(origin) && path == "/capture"
        case (None, None) => true
        case _ => false)
    && Acceptable(slot.payload)
  }

  /** Which entries are looked at, and under which nonce. */
  lemma {:induction false} EntryRule(slot: Slot, now: int, ttl: nat, n: Text)
    ensures Usable(slot, now, ttl, n) <==> EntryOk(slot, now, ttl) && NormalizeNonce(Some(slot.nonce)) == Some(n)
  {
    if slot.Entry? {
      PayloadRule(slot.payload);
      NonceRule(slot.nonce, n);
    }
  }

  lemma {:induction false} EntryHasNonce(slot: Slot, now: int, ttl: nat) returns (n: Text)
    ensures EntryOk(slot, now, ttl) ==> NormalizeNonce(Some(slot.nonce)) == Some(n)
    ensures EntryOk(slot, now, ttl) <==> Usable(slot, now, ttl, n)
    ensures EntryOk(slot, now, ttl) <==> exists n' :: Usable(slot, now, ttl, n')
  {
    n := if EntryOk(slot, now, ttl) then NormalizeNonce(Some(slot.nonce)).value else [];
    EntryRule(slot, now, ttl, n);
    if n' :| Usable(slot, now, ttl, n') { EntryRule(slot, now, ttl, n'); }
  }

  // ---------------------------------------------------------------- decisions

  /** The request repeats the nonce of the entry, its target if it has one, and its tab if it has one. */
  ghost predicate Names(b: Binding, slot: Slot, n: Text)
    requires slot.Entry?
  {
    && b.nonce == Some(n)
    && (slot.origin.Some? ==> b.origin == slot.origin && b.path == slot.path)
    && (slot.tab.Some? ==> b.tab == slot.tab)
  }

  /**
   A claim discards what is not usable under any nonce, delivers the cleaned payload of a usable entry it names
   and leaves the others.
   */
  lemma {:induction false} ClaimRule(slot: Slot, b: Option<Binding>, now: int, ttl: nat, strip: Text -> Text)
    returns (n: Text)
    ensures var decision := DecideClaim(slot, b, now, ttl, strip);
      && (decision.Discard? <==> forall n' :: !Usable(slot, now, ttl, n'))
      && (decision.Deliver? <==> Usable(slot, now, ttl, n) && b.Some? && Names(b.value, slot, n))
  {
    n := EntryHasNonce(slot, now, ttl);
  }

  lemma {:induction false} DeliversCleaned(slot: Slot, b: Option<Binding>, now: int, ttl: nat, strip: Text -> Text)
    requires DecideClaim(slot, b, now, ttl, strip).Deliver?
    ensures IsCleaned(slot.payload, strip, DecideClaim(slot, b, now, ttl, strip).payload)
  {
    CleanedFields(slot.payload, strip);
  }

  /** A binding never fills in half a target, and keeps the one that is there. */
  ghost predicate IsBound(slot: Slot, b: Binding, n: Text, strip: Text -> Text, entry: Slot)
    requires slot.Entry?
  {
    && entry.Entry? && entry.nonce == n && entry.createdAt == slot.createdAt && entry.tab == b.tab
    && entry.origin == (if slot.origin.Some? then slot.origin else b.origin)
    && entry.path == (if entry.origin.None? then None else if slot.origin.Some? then slot.path else b.path)
    && StoresCleaned(slot.payload, strip, entry)
  }

  ghost predicate StoresCleaned(payload: RawPayload, strip: Text -> Text, entry: Slot)
    requires entry.Entry?
  {
    exists clean :: IsCleaned(payload, strip, clean) && entry.payload == Raw(clean)
  }

  /** A bind drops what is not usable, ties a usable entry it names to the tab and refuses the others. */
  lemma {:induction false} BindRule(slot: Slot, b: Binding, now: int, ttl: nat, strip: Text -> Text)
    returns (n: Text)
    ensures var decision := DecideBind(slot, b, now, ttl, strip);
      && (decision.Drop? <==> forall n' :: !Usable(slot, now, ttl, n'))
      && (decision.Write? <==> Usable(slot, now, ttl, n) && Names(b, slot, n))
      && (decision.Write? ==> IsBound(slot, b, n, strip, decision.entry))
  {
    n := EntryHasNonce(slot, now, ttl);
    if DecideBind(slot, b, now, ttl, strip).Write? { BindsEntry(slot, b, now, ttl, strip, n); }
  }

  lemma {:induction false} BindsEntry(slot: Slot, b: Binding, now: int, ttl: nat, strip: Text -> Text, n: Text)
    requires DecideBind(slot, b, now, ttl, strip).Write? && NormalizeNonce(Some(slot.nonce)) == Some(n)
    ensures IsBound(slot, b, n, strip, DecideBind(slot, b, now, ttl, strip).entry)
  {
    CleanedFields(slot.payload, strip);
    assert StoresCleaned(slot.payload, strip, DecideBind(slot, b, now, ttl, strip).entry);
  }

  /** What a put stores: the cleaned payload under the binding's nonce, with its whole target or none. */
  lemma {:induction false} PutRule(payload: RawPayload, b: Binding, now: int, strip: Text -> Text)
    requires b.nonce.Some?
    ensures var entry := PutEntry(payload, b, now, strip);
      && entry.Entry? && Some(entry.nonce) == b.nonce && entry.createdAt == now && entry.tab == b.tab
      && entry.origin == b.origin && entry.path == (if b.origin.Some? then b.path else None)
      && StoresCleaned(payload, strip, entry)
  {
    CleanedFields(payload, strip);
  }

  /** The bridge hands on the response cleaned once more, unless no business name is left. */
  lemma {:induction false} BridgeRule(response: Option<Payload>, strip: Text -> Text)
    ensures BridgePayload(response, strip).None? <==>
      response.None? || exists clean :: IsCleaned(Raw(response.value), strip, clean) && clean["businessName"] == []
    ensures BridgePayload(response, strip).Some? ==>
      response.Some? && IsCleaned(Raw(response.value), strip, BridgePayload(response, strip).value)
  {
    if response.Some? {
      CleanedFields(Raw(response.value), strip);
      if clean :| IsCleaned(Raw(response.value), strip, clean) && clean["businessName"] == [] {
        FieldOnce(Raw(response.value), strip, clean, SanitizePayload(Raw(response.value), strip), "businessName");
      }
    }
  }

  /** A payload can be cleaned in one way only. */
  lemma {:induction false} FieldOnce(payload: RawPayload, strip: Text -> Text, a: Payload, b: Payload, f: string)
    requires IsCleaned(payload, strip, a) && IsCleaned(payload, strip, b) && f in a
    ensures a[f] == b[f]
  {
    ClampedIsUnique(Given(payload, strip, f), LimitOf(f), a[f], b[f]);
  }

  lemma {:induction false} ClampedIsUnique(value: Text, max: nat, a: Text, b: Text)
    requires IsClamped(value, max, a) && IsClamped(value, max, b)
    ensures a == b
  {
    var t :| IsTrim(value, t) && a == if |t| <= max then t else t[..max];
    var u :| IsTrim(value, u) && b == if |u| <= max then u else u[..max];
    TrimIsUnique(value, t);
    TrimIsUnique(value, u);
  }

  /** The URL of the payload is a text that carries nothing. */
  ghost predicate IsSafe(payload: RawPayload, carries: Text -> bool) {
    && payload.Fields? && "pageUrl" in payload.values
    && payload.values["pageUrl"].Str? && !carries(payload.values["pageUrl"].text)
  }

  lemma {:induction false} CleanedIsSafe(
      payload: RawPayload, strip: Text -> Text, clean: Payload, carries: Text -> bool)
    requires IsCleaned(payload, strip, clean) && NeverLeft(strip, carries)
    ensures IsSafe(Raw(clean), carries)
  {
    CleanUrlCarriesNothing(payload, strip, clean, carries);
  }

  /** If `strip` leaves no credentials, a put stores none. */
  lemma {:induction false} NoCredentialsPut(
      payload: RawPayload, b: Binding, now: int, strip: Text -> Text, carries: Text -> bool)
    requires NeverLeft(strip, carries) && b.nonce.Some?
    ensures PutEntry(payload, b, now, strip).Entry? && IsSafe(PutEntry(payload, b, now, strip).payload, carries)
  {
    CleanedFields(payload, strip);
    CleanedIsSafe(payload, strip, SanitizePayload(payload, strip), carries);
  }

  /** Neither does a bind. */
  lemma {:induction false} NoCredentialsBound(
      slot: Slot, b: Binding, now: int, ttl: nat, strip: Text -> Text, carries: Text -> bool)
    requires NeverLeft(strip, carries) && DecideBind(slot, b, now, ttl, strip).Write?
    ensures var entry := DecideBind(slot, b, now, ttl, strip).entry; entry.Entry? && IsSafe(entry.payload, carries)
  {
    CleanedFields(slot.payload, strip);
    CleanedIsSafe(slot.payload, strip, SanitizePayload(slot.payload, strip), carries);
  }

  /** A claim delivers none, whatever the slot holds. */
  lemma {:induction false} NoCredentialsDelivered(
      slot: Slot, b: Option<Binding>, now: int, ttl: nat, strip: Text -> Text, carries: Text -> bool)
    requires NeverLeft(strip, carries) && DecideClaim(slot, b, now, ttl, strip).Deliver?
    ensures IsSafe(Raw(DecideClaim(slot, b, now, ttl, strip).payload), carries)
  {
    DeliversCleaned(slot, b, now, ttl, strip);
    CleanedIsSafe(slot.payload, strip, DecideClaim(slot, b, now, ttl, strip).payload, carries);
  }

  /** The bridge hands none over, whatever it is answered. */
  lemma {:induction false} NoCredentialsHandedOver(
      response: Option<Payload>, strip: Text -> Text, carries: Text -> bool)
    requires NeverLeft(strip, carries) && BridgePayload(response, strip).Some?
    ensures IsSafe(Raw(BridgePayload(response, strip).value), carries)
  {
    BridgeRule(response, strip);
    CleanedIsSafe(Raw(response.value), strip, BridgePayload(response, strip).value, carries);
  }

  // ---------------------------------------------------------------- requests and steps of the relay

  /**
   The worker takes a message exactly when it comes from the top frame of a tab of this extension whose URL is
   a capture page with the nonce, origin and path of the message; what it asks the store for is that tab.
   */
  lemma {:induction false} RequestRule(m: Message, sender: Sender, req: Request)
    ensures AllowedTarget(m, sender) == Some(req) <==>
      && sender.isExtension && sender.frameId == 0 && sender.tabId == req.tab
      && sender.url == Some(CaptureUrl(m.origin, m.path, m.nonce))
      && IsNonce(m.nonce) && IsGrowth(m.origin) && m.path == "/capture"
      && req.nonce == m.nonce && req.origin == m.origin && req.path == m.path
  {}

  /**
   The slot changes in five steps only: a put and a bind write their popup's entry, and an unusable entry, a
   failed hand-off and a claim that discards or delivers leave it empty.
   */
  lemma {:induction false} SlotRule(cfg: Config, s: Relay, a: Action)
    requires Step(cfg, s, a).Some?
    ensures Step(cfg, s, a).value.slot ==
      match a
      case PutLands(n) => s.popups[n].entry
      case BindLands(n) => s.popups[n].phase.entry
      case BindDrops(_) => Absent
      case Clears(_) => Absent
      case ClaimRemoves => Absent
      case _ => s.slot
  {}

  /**
   Any page may ask at any time, but with the nonce of a popup that has not navigated; a message that is taken
   joins the queue, and one that is not changes nothing.
   */
  lemma {:induction false} AsksRule(cfg: Config, s: Relay, m: Message, sender: Sender)
    ensures var next := Step(cfg, s, Asks(m, sender));
      && (next.Some? <==>
            (sender.url.Some? && sender.url.value.nonce in s.popups ==> sender.url.value.nonce in s.navigated))
      && (next.Some? ==>
            var req := AllowedTarget(m, sender);
            next.value == if req.None? then s else s.(queue := s.queue + [req.value]))
  {}
}
