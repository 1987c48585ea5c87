/** The daily energy quota (`energy.ts`): a state of three fields kept under
    one key of a key-value store, reset on each new local day, consumed one
    unit at a time down to zero and restored one unit at a time up to the
    maximum. Premium users are never charged.

    The store maps keys to the text last written there, seen through what
    `JSON.parse` makes of it; the clock reading `new Date()` is a parameter. */
module Energy {
  import opened Optional
  import Calendar

  const StorageKey: string := "sign:energy"
  const MaxEnergy: int := 3

  datatype EnergyState = EnergyState(remaining: int, lastResetDateISO: string, isPremium: bool)

  /** A JSON value as far as the shape check can tell values apart. */
  datatype JsonValue = JsonNumber(n: int) | JsonString(s: string) | JsonBool(b: bool) | JsonOther

  /** What `JSON.parse(raw)` yields: an object with (possibly missing) fields,
      some other JSON value (null, an array, a number, ...), or an error. */
  datatype Parsed =
    | JsonObject(remaining: Option<JsonValue>, lastResetDateISO: Option<JsonValue>,
                 isPremium: Option<JsonValue>)
    | NotAnObject
    | SyntaxError

  /** A stored text: the empty string, or text with what it parses to. */
  datatype Raw = EmptyText | Text(parsed: Parsed)

  type Store = map<string, Raw>

  /** The result of an operation: the state it returns and the store after it. */
  datatype Step = Step(state: EnergyState, store: Store)

  /** `JSON.stringify(state)`, as `JSON.parse` will read it back. */
  function Encode(s: EnergyState): Raw {
    Text(JsonObject(Some(JsonNumber(s.remaining)), Some(JsonString(s.lastResetDateISO)),
                    Some(JsonBool(s.isPremium))))
  }

  /** The shape check of `readState`: the three fields with the right types,
      or nothing (a missing key, empty text, a parse error or a bad shape). */
  function Decode(raw: Option<Raw>): (r: Option<EnergyState>)
    ensures r.Some? ==> raw == Some(Encode(r.value))
  {
    match raw
    case None => None
    case Some(EmptyText) => None
    case Some(Text(JsonObject(Some(JsonNumber(n)), Some(JsonString(d)), Some(JsonBool(p))))) =>
      Some(EnergyState(n, d, p))
    case Some(_) => None
  }

  /** The state currently held by the store, if it passes the shape check. */
  function Stored(store: Store): Option<EnergyState> {
    Decode(if StorageKey in store then Some(store[StorageKey]) else None)
  }

  lemma DecodeEncode(s: EnergyState)
    ensures Decode(Some(Encode(s))) == Some(s)
  {
  }

  /** `writeState(state)`. */
  function Write(store: Store, s: EnergyState): (r: Step)
    ensures Stored(r.store) == Some(s) && r.state == s
    ensures forall k | k in store && k != StorageKey :: k in r.store && r.store[k] == store[k]
  {
    Step(s, store[StorageKey := Encode(s)])
  }

  /** `buildDefaultState(date)`: a full quota, reset today, not premium. */
  function DefaultState(now: Calendar.Date): EnergyState
    requires Calendar.Valid(now)
  {
    EnergyState(MaxEnergy, Calendar.ToLocalDateISO(now), false)
  }

  /** `readState(date)`: the stored state when it passes the shape check,
      returned as is and without writing; otherwise the default state, which
      is written back. */
  function ReadState(store: Store, now: Calendar.Date): (r: Step)
    requires Calendar.Valid(now)
    ensures Stored(r.store) == Some(r.state)
    ensures Stored(store).Some? ==> r == Step(Stored(store).value, store)
    ensures Stored(store).None? ==>
      && r.state.remaining == MaxEnergy
      && r.state.lastResetDateISO == Calendar.ToLocalDateISO(now)
      && !r.state.isPremium
  {
    match Stored(store)
    case Some(s) =>
      DecodeEncode(s);
      Step(s, store)
    case None => Write(store, DefaultState(now))
  }

  /** `resetIfNewDay(now)`. The reset happens whenever the stored date text
      differs from today's, including a stored date later than today. */
  function ResetIfNewDay(store: Store, now: Calendar.Date): (r: Step)
    requires Calendar.Valid(now)
    ensures Stored(r.store) == Some(r.state)
    ensures r.state.lastResetDateISO == Calendar.ToLocalDateISO(now)
    ensures r.state.isPremium == ReadState(store, now).state.isPremium
    ensures ReadState(store, now).state.lastResetDateISO == Calendar.ToLocalDateISO(now)
      ==> r == ReadState(store, now)
    ensures ReadState(store, now).state.lastResetDateISO != Calendar.ToLocalDateISO(now)
      ==> r.state.remaining == MaxEnergy
  {
    var read := ReadState(store, now);
    var today := Calendar.ToLocalDateISO(now);
    if read.state.lastResetDateISO != today then
      Write(read.store, read.state.(remaining := if read.state.isPremium then MaxEnergy else MaxEnergy,
                                    lastResetDateISO := today))
    else read
  }

  /** `consumeEnergy()`: after the day's reset, a non-premium user with
      energy left loses one unit; otherwise nothing more happens. */
  function ConsumeEnergy(store: Store, now: Calendar.Date): (r: Step)
    requires Calendar.Valid(now)
    ensures Stored(r.store) == Some(r.state)
    ensures var s := ResetIfNewDay(store, now).state;
      && r.state == (if s.isPremium || s.remaining <= 0 then s else s.(remaining := s.remaining - 1))
  {
    var reset := ResetIfNewDay(store, now);
    var s := reset.state;
    if s.isPremium then reset
    else if s.remaining <= 0 then reset
    else Write(reset.store, s.(remaining := s.remaining - 1))
  }

  /** `restoreOneEnergy()`: after the day's reset, a non-premium user gains
      one unit, capped at the maximum. */
  function RestoreOneEnergy(store: Store, now: Calendar.Date): (r: Step)
    requires Calendar.Valid(now)
    ensures Stored(r.store) == Some(r.state)
    ensures var s := ResetIfNewDay(store, now).state;
      && r.state == (if s.isPremium then s
                     else s.(remaining := if s.remaining + 1 < MaxEnergy then s.remaining + 1 else MaxEnergy))
  {
    var reset := ResetIfNewDay(store, now);
    var s := reset.state;
    if s.isPremium then reset
    else Write(reset.store, s.(remaining := Min(MaxEnergy, s.remaining + 1)))
  }

  function Min(a: int, b: int): int {
    if a <= b then a else b
  }

  // ---------------------------------------------------------------------
  // Properties of the state machine.

  /** Resetting twice on the same day is resetting once: the second call
      finds today's date and neither changes nor writes anything. */
  lemma ResetIdempotent(store: Store, now: Calendar.Date)
    requires Calendar.Valid(now)
    ensures var once := ResetIfNewDay(store, now);
      ResetIfNewDay(once.store, now) == once
  {
  }

  /** The quota stays within 0..3 when it starts there; the shape check
      itself does not enforce the range, so a stored state outside it is
      returned as it is. */
  predicate InRange(store: Store) {
    Stored(store).Some? ==> 0 <= Stored(store).value.remaining <= MaxEnergy
  }

  lemma RangePreserved(store: Store, now: Calendar.Date)
    requires Calendar.Valid(now)
    requires InRange(store)
    ensures InRange(ReadState(store, now).store)
    ensures InRange(ResetIfNewDay(store, now).store)
    ensures InRange(ConsumeEnergy(store, now).store)
    ensures InRange(RestoreOneEnergy(store, now).store)
  {
  }

  /** Consuming never takes a non-negative quota below zero, and restoring
      never takes the quota above the maximum. */
  lemma Bounds(store: Store, now: Calendar.Date)
    requires Calendar.Valid(now)
    ensures ResetIfNewDay(store, now).state.remaining >= 0 ==> ConsumeEnergy(store, now).state.remaining >= 0
    ensures ResetIfNewDay(store, now).state.remaining <= MaxEnergy ==> RestoreOneEnergy(store, now).state.remaining <= MaxEnergy
  {
  }

  /** No operation changes `isPremium`: every operation reports the flag of
      the stored state, or `false` when there is none. */
  lemma PremiumUnchanged(store: Store, now: Calendar.Date)
    requires Calendar.Valid(now)
    ensures var p := if Stored(store).Some? then Stored(store).value.isPremium else false;
      && ReadState(store, now).state.isPremium == p
      && ResetIfNewDay(store, now).state.isPremium == p
      && ConsumeEnergy(store, now).state.isPremium == p
      && RestoreOneEnergy(store, now).state.isPremium == p
  {
  }

  /** First run: an empty store yields three units, not premium, reset today,
      and that state is saved. */
  lemma FirstRun(now: Calendar.Date)
    requires Calendar.Valid(now)
    ensures var r := ReadState(map[], now);
      && r.state == EnergyState(3, Calendar.ToLocalDateISO(now), false)
      && Stored(r.store) == Some(r.state)
  {
  }

  /** A drained quota saved yesterday is full again today. */
  lemma ResetsOnDateChange(yesterday: Calendar.Date, today: Calendar.Date)
    requires Calendar.Valid(yesterday) && Calendar.Valid(today)
    requires yesterday.year >= 0 && today.year >= 0 && yesterday != today
    ensures var store := map[StorageKey := Encode(EnergyState(0, Calendar.ToLocalDateISO(yesterday), false))];
      var r := ResetIfNewDay(store, today);
      r.state == EnergyState(3, Calendar.ToLocalDateISO(today), false)
  {
    if Calendar.ToLocalDateISO(yesterday) == Calendar.ToLocalDateISO(today) {
      Calendar.FormatInjective(yesterday, today);
    }
  }
}
