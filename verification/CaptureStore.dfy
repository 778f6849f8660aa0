/** The pending-capture store of the extension: clean-up, validation, and the claim-once slot. */
module CaptureStore {
  import opened Wrappers
  import opened CaptureText

  const DEFAULT_TTL_MS: nat := 5 * 60 * 1000
  const CAPTURE_PAGE_PATH := "/capture"
  const GROWTH_ORIGINS: set<string> := {"https://growth.easymod.tech", "http://127.0.0.1:5175"}
  const CAPTURE_NONCE_HEX_LENGTH := 32

  const FIELD_LIMITS: map<string, nat> := map[
    "businessName" := 255, "pageUrl" := 2048, "sourceWebsite" := 255, "selectedText" := 8000,
    "contactPhone" := 64, "contactEmail" := 320, "note" := 4000]

  datatype JsValue = Undefined | Str(text: Text) | Other
  datatype RawPayload = NotAnObject | Fields(values: map<string, JsValue>)
  /** A cleaned payload: every field present, every value a string. */
  type Payload = map<string, Text>

  /** The slot of the session storage; `Malformed` is anything that is not an entry object. */
  datatype Slot =
    | Absent
    | Malformed
    | Entry(nonce: Text, payload: RawPayload, createdAt: int, tab: Option<int>,
            origin: Option<string>, path: Option<string>)

  datatype Binding = Binding(nonce: Option<Text>, tab: Option<int>, origin: Option<string>, path: Option<string>)

  // ---------------------------------------------------------------- payloads

  function AsText(values: map<string, JsValue>, field: string): Text {
    if field in values && values[field].Str? then values[field].text else []
  }

  /** `strip` is `stripUrlCredentials`; URL parsing is not part of this model. */
  function SanitizePayload(payload: RawPayload, strip: Text -> Text): Payload {
    match payload
    case NotAnObject => map f | f in FIELD_LIMITS :: []
    case Fields(values) =>
      map f | f in FIELD_LIMITS ::
        ClampText(if f == "pageUrl" then strip(AsText(values, f)) else AsText(values, f), FIELD_LIMITS[f])
  }

  // ---------------------------------------------------------------- what cleaning leaves

  /** What is cut to its limit: the text given, without its credentials if it is the URL. */
  ghost function Given(payload: RawPayload, strip: Text -> Text, field: string): Text {
    var text :=
      if payload.Fields? && field in payload.values && payload.values[field].Str? then payload.values[field].text
      else [];
    if field == "pageUrl" && payload.Fields? then strip(text) else text
  }

  ghost function LimitOf(field: string): nat {
    match field
    case "businessName" => 255
    case "pageUrl" => 2048
    case "sourceWebsite" => 255
    case "selectedText" => 8000
    case "contactPhone" => 64
    case "contactEmail" => 320
    case _ => 4000
  }

  ghost const FIELD_NAMES: set<string> :=
    {"businessName", "pageUrl", "sourceWebsite", "selectedText", "contactPhone", "contactEmail", "note"}

  ghost predicate IsCleaned(payload: RawPayload, strip: Text -> Text, clean: Payload) {
    && clean.Keys == FIELD_NAMES
    && forall f | f in clean :: IsClamped(Given(payload, strip, f), LimitOf(f), clean[f])
  }

  /** Cleaning trims every text given, the URL without its credentials, and cuts it to the limit of its field. */
  lemma {:induction false} CleanedFields(payload: RawPayload, strip: Text -> Text)
    ensures IsCleaned(payload, strip, SanitizePayload(payload, strip))
  {
    var clean := SanitizePayload(payload, strip);
    forall f | f in FIELD_NAMES ensures IsClamped(Given(payload, strip, f), LimitOf(f), clean[f]) {
      CleanedField(payload, strip, f);
    }
  }

  lemma {:induction false} CleanedField(payload: RawPayload, strip: Text -> Text, f: string)
    requires f in FIELD_NAMES
    ensures f in FIELD_LIMITS && FIELD_LIMITS[f] == LimitOf(f)
    ensures IsClamped(Given(payload, strip, f), LimitOf(f), SanitizePayload(payload, strip)[f])
  {
    ClampIs(Given(payload, strip, f), LimitOf(f));
  }

  /** No trimmed or cut result of `strip`, whatever it is applied to, has the property. */
  ghost predicate NeverLeft(strip: Text -> Text, carries: Text -> bool) {
    && (forall u, t | IsClamped(strip(u), 2048, t) :: !carries(t))
    && !carries([])
  }

  /** If nothing `strip` leaves carries credentials, no cleaned URL does. */
  lemma {:induction false} CleanUrlCarriesNothing(
      payload: RawPayload, strip: Text -> Text, clean: Payload, carries: Text -> bool)
    requires IsCleaned(payload, strip, clean) && NeverLeft(strip, carries)
    ensures !carries(clean["pageUrl"])
  {
    assert IsClamped(Given(payload, strip, "pageUrl"), 2048, clean["pageUrl"]);
    if payload.NotAnObject? {
      var t :| IsTrim([], t) && clean["pageUrl"] == if |t| <= 2048 then t else t[..2048];
      assert clean["pageUrl"] == [];
    }
  }

  predicate FieldOk(values: map<string, JsValue>, field: string)
    requires field in FIELD_LIMITS
  {
    field in values && values[field] != Undefined ==>
      values[field].Str? && |values[field].text| <= FIELD_LIMITS[field]
  }

  /** `validatePayload(...).ok`. */
  predicate ValidPayload(payload: RawPayload) {
    && payload.Fields?
    && (forall k | k in payload.values :: k in FIELD_LIMITS)
    && (forall f | f in FIELD_LIMITS :: FieldOk(payload.values, f))
    && Trim(AsText(payload.values, "businessName")) != []
  }

  function Raw(payload: Payload): RawPayload {
    Fields(map f | f in payload :: Str(payload[f]))
  }

  /** Cleaning always yields bounded fields; the result is valid exactly when the name survives. */
  lemma {:induction false} SanitizeBounds(payload: RawPayload, strip: Text -> Text)
    ensures var clean := SanitizePayload(payload, strip);
      && clean.Keys == FIELD_LIMITS.Keys
      && (forall f | f in clean :: |clean[f]| <= FIELD_LIMITS[f])
      && (ValidPayload(Raw(clean)) <==> clean["businessName"] != [])
      && (ValidPayload(payload) ==> clean["businessName"] != [])
  {
    FieldsAreBounded(payload, strip);
    var clean := SanitizePayload(payload, strip);
    if payload.Fields? {
      ClampKeepsContent(AsText(payload.values, "businessName"), 255);
    }
    BoundedIsValid(clean);
  }

  lemma {:induction false} FieldsAreBounded(payload: RawPayload, strip: Text -> Text)
    ensures var clean := SanitizePayload(payload, strip);
      && clean.Keys == FIELD_LIMITS.Keys
      && (forall f | f in clean :: |clean[f]| <= FIELD_LIMITS[f])
      && (Trim(clean["businessName"]) != [] <==> clean["businessName"] != [])
  {
    var clean := SanitizePayload(payload, strip);
    if payload.Fields? {
      forall f | f in clean ensures |clean[f]| <= FIELD_LIMITS[f] {
        ClampKeepsContent(if f == "pageUrl" then strip(AsText(payload.values, f)) else AsText(payload.values, f),
                          FIELD_LIMITS[f]);
      }
      ClampKeepsContent(AsText(payload.values, "businessName"), 255);
    }
  }

  /** Strings within their limits are valid as soon as the name is not blank. */
  lemma {:induction false} BoundedIsValid(clean: Payload)
    requires clean.Keys == FIELD_LIMITS.Keys && forall f | f in clean :: |clean[f]| <= FIELD_LIMITS[f]
    ensures ValidPayload(Raw(clean)) <==> Trim(clean["businessName"]) != []
  {
    forall f | f in FIELD_LIMITS ensures FieldOk(Raw(clean).values, f) {}
  }

  /** A valid payload loses nothing but the white space around its values and what `strip` takes off the URL. */
  lemma {:induction false} ValidIsOnlyTrimmed(payload: RawPayload, strip: Text -> Text, f: string)
    requires ValidPayload(payload) && f in FIELD_LIMITS && f != "pageUrl"
    ensures SanitizePayload(payload, strip)[f] == Trim(AsText(payload.values, f))
  {
    TrimmedIsFixed(AsText(payload.values, f));
    assert FieldOk(payload.values, f);
  }

  /** Cleaning a second time can still shorten a field; cleaning a third time changes nothing but the URL. */
  lemma {:induction false} SanitizeSettles(payload: RawPayload, strip: Text -> Text, f: string)
    requires f in FIELD_LIMITS && f != "pageUrl"
    ensures var once := SanitizePayload(payload, strip);
      var twice := SanitizePayload(Raw(once), strip);
      SanitizePayload(Raw(twice), strip)[f] == twice[f]
  {
    var value := if payload.Fields? then AsText(payload.values, f) else [];
    ClampSettles(value, FIELD_LIMITS[f]);
  }

  // ---------------------------------------------------------------- nonces and bindings

  function LowerAscii(s: Text): (r: Text)
    ensures |r| == |s|
  {
    if s == [] then [] else [if 0x41 <= s[0] <= 0x5A then s[0] + 0x20 else s[0]] + LowerAscii(s[1..])
  }

  predicate IsHexDigit(c: CodeUnit) {
    0x30 <= c <= 0x39 || 0x61 <= c <= 0x66
  }

  predicate IsValidNonce(s: Text) {
    |s| == CAPTURE_NONCE_HEX_LENGTH && forall i | 0 <= i < |s| :: IsHexDigit(s[i])
  }

  function NormalizeNonce(value: Option<Text>): Option<Text> {
    if value.None? then None
    else
      var nonce := LowerAscii(Trim(value.value));
      if IsValidNonce(nonce) then Some(nonce) else None
  }

  lemma {:induction false} LowerIsFixedOnHex(s: Text)
    requires forall i | 0 <= i < |s| :: IsHexDigit(s[i])
    ensures LowerAscii(s) == s
  {
    if s != [] { LowerIsFixedOnHex(s[1..]); }
  }

  /** A generated nonce is its own normal form. */
  lemma {:induction false} NormalNonceIsFixed(nonce: Text)
    requires IsValidNonce(nonce)
    ensures NormalizeNonce(Some(nonce)) == Some(nonce)
  {
    assert IsHexDigit(nonce[0]) && IsHexDigit(nonce[|nonce| - 1]);
    TrimmedIsFixed(nonce);
    LowerIsFixedOnHex(nonce);
  }

  /** The same binding with its nonce in normal form, or None when any part is unacceptable. */
  function NormalizeBinding(b: Binding): Option<Binding> {
    var nonce := NormalizeNonce(b.nonce);
    if nonce.None? then None
    else if b.tab.Some? && b.tab.value < 0 then None
    else if b.origin.Some? && b.origin.value !in GROWTH_ORIGINS then None
    else if b.path.Some? && b.path.value != CAPTURE_PAGE_PATH then None
    else Some(b.(nonce := nonce))
  }

  // ---------------------------------------------------------------- inspecting the slot

  predicate EntryOk(slot: Slot, now: int, ttl: nat) {
    && slot.Entry?
    && NormalizeNonce(Some(slot.nonce)).Some?
    && 0 <= now - slot.createdAt <= ttl
    && (slot.tab.Some? ==> slot.tab.value >= 0)
    && slot.origin.Some? == slot.path.Some?
    && (slot.origin.Some? ==> slot.origin.value in GROWTH_ORIGINS)
    && (slot.path.Some? ==> slot.path.value == CAPTURE_PAGE_PATH)
    && ValidPayload(slot.payload)
  }

  /** The stored entry is bound to a target, and the request names another. */
  predicate TargetMismatch(slot: Slot, b: Binding)
    requires slot.Entry?
  {
    slot.origin.Some? && (b.origin != slot.origin || b.path != slot.path)
  }

  datatype ClaimDecision = Discard | Leave | Deliver(payload: Payload)

  /** What `claim` does with the slot it has read, and what it returns. */
  function DecideClaim(slot: Slot, b: Option<Binding>, now: int, ttl: nat, strip: Text -> Text): ClaimDecision {
    if !EntryOk(slot, now, ttl) then Discard
    else if b.None? || NormalizeNonce(Some(slot.nonce)) != b.value.nonce then Leave
    else if TargetMismatch(slot, b.value) then Leave
    else if slot.tab.Some? && b.value.tab != slot.tab then Leave
    else Deliver(SanitizePayload(slot.payload, strip))
  }

  datatype BindDecision = Drop | Refuse | Write(entry: Slot)

  /** What `bindTargetTab` does with the slot it has read. */
  function DecideBind(slot: Slot, b: Binding, now: int, ttl: nat, strip: Text -> Text): BindDecision {
    if !EntryOk(slot, now, ttl) then Drop
    else if NormalizeNonce(Some(slot.nonce)) != b.nonce then Refuse
    else if TargetMismatch(slot, b) then Refuse
    else if slot.tab.Some? && slot.tab != b.tab then Refuse
    else
      var origin := if slot.origin.Some? then slot.origin else b.origin;
      var path := if slot.path.Some? then slot.path else b.path;
      Write(Entry(
        NormalizeNonce(Some(slot.nonce)).value,
        Raw(SanitizePayload(slot.payload, strip)),
        slot.createdAt,
        b.tab,
        origin,
        if origin.Some? then path else None))
  }

  function PutEntry(payload: RawPayload, b: Binding, now: int, strip: Text -> Text): Slot
    requires b.nonce.Some?
  {
    Entry(b.nonce.value, Raw(SanitizePayload(payload, strip)), now, b.tab, b.origin,
          if b.origin.Some? then b.path else None)
  }

  /** A delivery is of a live, valid entry with the claimant's nonce, target and tab; the name survives. */
  lemma {:induction false} DeliveredOnlyToItsClaimant(
      slot: Slot, b: Option<Binding>, now: int, ttl: nat, strip: Text -> Text)
    ensures DecideClaim(slot, b, now, ttl, strip).Deliver? <==>
      && EntryOk(slot, now, ttl)
      && b.Some? && NormalizeNonce(Some(slot.nonce)) == b.value.nonce
      && (slot.origin.None? || (b.value.origin == slot.origin && b.value.path == slot.path))
      && (slot.tab.None? || b.value.tab == slot.tab)
    ensures DecideClaim(slot, b, now, ttl, strip).Deliver? ==>
      && 0 <= now - slot.createdAt <= ttl
      && DecideClaim(slot, b, now, ttl, strip).payload["businessName"] != []
      && ValidPayload(Raw(DecideClaim(slot, b, now, ttl, strip).payload))
  {
    if EntryOk(slot, now, ttl) { SanitizeBounds(slot.payload, strip); }
  }

  /** Binding keeps the creation time, so it never extends an entry's life, and keeps its target. */
  lemma {:induction false} BindingKeepsEntry(
      slot: Slot, b: Binding, now: int, later: int, ttl: nat, strip: Text -> Text)
    requires DecideBind(slot, b, now, ttl, strip).Write? && NormalizeBinding(b) == Some(b)
    ensures var bound := DecideBind(slot, b, now, ttl, strip).entry;
      && bound.createdAt == slot.createdAt && bound.tab == b.tab
      && NormalizeNonce(Some(slot.nonce)) == Some(bound.nonce)
      && (slot.origin.Some? ==> bound.origin == slot.origin && bound.path == slot.path)
      && (EntryOk(bound, later, ttl) ==> EntryOk(slot, later, ttl))
      && (EntryOk(slot, later, ttl) && (slot.origin.Some? || b.origin.Some? == b.path.Some?) ==>
            EntryOk(bound, later, ttl))
  {
    SanitizeBounds(slot.payload, strip);
    NormalNonceIsFixed(NormalizeNonce(Some(slot.nonce)).value);
  }

  /** Undisturbed, an operator's valid capture reaches the tab its popup bound, any time within the TTL. */
  lemma {:induction false} PutBindClaimDelivers(payload: RawPayload, nonce: Text, origin: string, tab: nat,
                             put: int, bind: int, claim: int, ttl: nat, strip: Text -> Text)
    requires ValidPayload(payload) && IsValidNonce(nonce) && origin in GROWTH_ORIGINS
    requires put <= bind <= claim <= put + ttl
    ensures var target := Binding(Some(nonce), None, Some(origin), Some(CAPTURE_PAGE_PATH));
      var stored := PutEntry(payload, target, put, strip);
      var written := DecideBind(stored, target.(tab := Some(tab)), bind, ttl, strip);
      && NormalizeBinding(target) == Some(target)
      && written.Write?
      && DecideClaim(written.entry, Some(target.(tab := Some(tab))), claim, ttl, strip).Deliver?
      && (forall other: int | other != tab ::
            DecideClaim(written.entry, Some(target.(tab := Some(other))), claim, ttl, strip) == Leave)
  {
    NormalNonceIsFixed(nonce);
    CleanIsValid(payload, strip);
    var target := Binding(Some(nonce), Some(tab), Some(origin), Some(CAPTURE_PAGE_PATH));
    var stored := PutEntry(payload, target.(tab := None), put, strip);
    assert EntryOk(stored, bind, ttl) && EntryOk(stored, claim, ttl);
    BindingKeepsEntry(stored, target, bind, claim, ttl, strip);
    var bound := DecideBind(stored, target, bind, ttl, strip).entry;
    assert EntryOk(bound, claim, ttl);
    DeliveredOnlyToItsClaimant(bound, Some(target), claim, ttl, strip);
  }

  lemma {:induction false} CleanIsValid(payload: RawPayload, strip: Text -> Text)
    requires ValidPayload(payload)
    ensures ValidPayload(Raw(SanitizePayload(payload, strip)))
  {
    SanitizeBounds(payload, strip);
  }

  /** The content bridge cleans the response once more and hands it on only with a name. */
  function BridgePayload(response: Option<Payload>, strip: Text -> Text): Option<Payload> {
    if response.None? then None
    else
      var payload := SanitizePayload(Raw(response.value), strip);
      if payload["businessName"] == [] then None else Some(payload)
  }

  lemma {:induction false} BridgeKeepsCleanedTwice(form: RawPayload, strip: Text -> Text, delivered: Payload)
    requires delivered == SanitizePayload(Raw(SanitizePayload(form, strip)), strip)
    requires ValidPayload(Raw(delivered))
    ensures var handed := BridgePayload(Some(delivered), strip);
      && handed.Some?
      && forall f | f in FIELD_LIMITS && f != "pageUrl" :: handed.value[f] == delivered[f]
  {
    SanitizeBounds(Raw(delivered), strip);
    forall f | f in FIELD_LIMITS && f != "pageUrl" ensures SanitizePayload(Raw(delivered), strip)[f] == delivered[f] {
      SanitizeSettles(form, strip, f);
    }
  }

  /** The bridge accepts every delivery of a stored capture and changes no field but, perhaps, the URL. */
  lemma {:induction false} BridgeHandsOver(
      form: RawPayload, slot: Slot, b: Option<Binding>, now: int, ttl: nat, strip: Text -> Text)
    requires slot.Entry? && slot.payload == Raw(SanitizePayload(form, strip))
    requires DecideClaim(slot, b, now, ttl, strip).Deliver?
    ensures var delivered := DecideClaim(slot, b, now, ttl, strip).payload;
      var handed := BridgePayload(Some(delivered), strip);
      && handed.Some?
      && forall f | f in FIELD_LIMITS && f != "pageUrl" :: handed.value[f] == delivered[f]
  {
    DeliveredOnlyToItsClaimant(slot, b, now, ttl, strip);
    BridgeKeepsCleanedTwice(form, strip, DecideClaim(slot, b, now, ttl, strip).payload);
  }

  // ---------------------------------------------------------------- the store over one slot

  class SessionStorage {
    var slot: Slot

    constructor ()
      ensures slot == Absent
    {
      slot := Absent;
    }
  }

  /** `ttlMs` of a store: the requested time to live, never above the default. */
  function TtlFor(requested: Option<int>): (ttl: nat)
    ensures ttl <= DEFAULT_TTL_MS
    ensures requested.Some? && 0 <= requested.value <= 300000 ==> ttl == requested.value
    ensures requested.None? || requested.value < 0 || requested.value > 300000 ==> ttl == 300000
  {
    if requested.Some? && requested.value >= 0
    then (if requested.value < DEFAULT_TTL_MS then requested.value else DEFAULT_TTL_MS)
    else DEFAULT_TTL_MS
  }

  datatype PutError = InvalidPayload | InvalidNonce

  /** One operation of a store at a time, which is what its queue enforces within one context. */
  class PendingCaptureStore {
    const storage: SessionStorage
    const ttl: nat

    constructor (storage: SessionStorage, requestedTtl: Option<int>)
      ensures this.storage == storage && ttl == TtlFor(requestedTtl)
    {
      this.storage := storage;
      this.ttl := TtlFor(requestedTtl);
    }

    method Put(payload: RawPayload, binding: Binding, now: int, strip: Text -> Text)
      returns (r: Result<Payload, PutError>)
      modifies storage`slot
      ensures r.Ok? <==> ValidPayload(payload) && NormalizeBinding(binding).Some?
      ensures r.Ok? ==> storage.slot == PutEntry(payload, NormalizeBinding(binding).value, now, strip)
      ensures r.Ok? ==> r.value == SanitizePayload(payload, strip)
      ensures r.Ok? ==> IsCleaned(payload, strip, r.value)
      ensures r.Ok? ==> storage.slot.Entry? && storage.slot.payload == Raw(r.value)
      ensures r.Err? ==> storage.slot == old(storage.slot)
    {
      if !ValidPayload(payload) { return Err(InvalidPayload); }
      var normalized := NormalizeBinding(binding);
      if normalized.None? { return Err(InvalidNonce); }
      storage.slot := PutEntry(payload, normalized.value, now, strip);
      CleanedFields(payload, strip);
      r := Ok(SanitizePayload(payload, strip));
    }

    /** A second claim of the same entry finds the slot empty; a mismatch consumes nothing. */
    method Claim(binding: Binding, now: int, strip: Text -> Text) returns (r: Option<Payload>)
      modifies storage`slot
      ensures var decision := DecideClaim(old(storage.slot), NormalizeBinding(binding), now, ttl, strip);
        && r == (if decision.Deliver? then Some(decision.payload) else None)
        && storage.slot == (if decision.Leave? then old(storage.slot) else Absent)
      ensures r.Some? ==> old(storage.slot).Entry? && IsCleaned(old(storage.slot).payload, strip, r.value)
    {
      var normalized := NormalizeBinding(binding);
      var entry := storage.slot;
      if !EntryOk(entry, now, ttl) {
        storage.slot := Absent;
        return None;
      }
      if normalized.None? || NormalizeNonce(Some(entry.nonce)) != normalized.value.nonce { return None; }
      if TargetMismatch(entry, normalized.value) { return None; }
      if entry.tab.Some? && (normalized.value.tab.None? || entry.tab != normalized.value.tab) { return None; }
      storage.slot := Absent;
      CleanedFields(entry.payload, strip);
      r := Some(SanitizePayload(entry.payload, strip));
    }

    method BindTargetTab(binding: Binding, now: int, strip: Text -> Text) returns (bound: bool)
      modifies storage`slot
      ensures var normalized := NormalizeBinding(binding);
        if normalized.None? || normalized.value.tab.None? then !bound && storage.slot == old(storage.slot)
        else
          var decision := DecideBind(old(storage.slot), normalized.value, now, ttl, strip);
          && bound == decision.Write?
          && storage.slot == match decision
               case Drop => Absent
               case Refuse => old(storage.slot)
               case Write(entry) => entry
    {
      var normalized := NormalizeBinding(binding);
      if normalized.None? || normalized.value.tab.None? { return false; }
      var b := normalized.value;
      var entry := storage.slot;
      if !EntryOk(entry, now, ttl) {
        storage.slot := Absent;
        return false;
      }
      var nonce := NormalizeNonce(Some(entry.nonce));
      if nonce != b.nonce { return false; }
      if TargetMismatch(entry, b) { return false; }
      if entry.tab.Some? && entry.tab != b.tab { return false; }
      var origin := if entry.origin.Some? then entry.origin else b.origin;
      var path := if origin.None? then None else if entry.path.Some? then entry.path else b.path;
      storage.slot :=
        Entry(nonce.value, Raw(SanitizePayload(entry.payload, strip)), entry.createdAt, b.tab, origin, path);
      bound := true;
    }

    method Clear()
      modifies storage`slot
      ensures storage.slot == Absent
    {
      storage.slot := Absent;
    }
  }
}
