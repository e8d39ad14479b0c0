/**
 * `useSyncFilters`: a filter value kept in one URL query parameter, with undo/redo through
 * the action history. The store remembers the last serialisation it wrote (or accepted) so
 * that its own URL writes are never mistaken for external navigation.
 *
 * JSON is abstract: `Codec.serialize` stands for `JSON.stringify`, `Codec.parse` for
 * `JSON.parse` (None when it throws) and `Codec.merge` for `{ ...initial, ...parsed }`.
 * Equality is the hook's default: equal serialisations.
 */
module SyncFilters {
  import opened Wrappers
  import AH = ActionHistory

  datatype Codec<!T, !P> = Codec(serialize: T -> string, parse: string -> Option<P>, merge: (T, P) -> T)

  /** The default `isEqual`: `JSON.stringify(a) === JSON.stringify(b)`. */
  predicate Same<T, P>(codec: Codec<T, P>, a: T, b: T) {
    codec.serialize(a) == codec.serialize(b)
  }

  function SameFn<T, P>(codec: Codec<T, P>): (T, T) -> bool {
    (a: T, b: T) => codec.serialize(a) == codec.serialize(b)
  }

  /** The hook's state: the filters, the URL parameter (absent = None), the last
      serialisation the store wrote or accepted (`latestSerializedRef`), and the history. */
  datatype Sync<T> = Sync(filters: T, param: Option<string>, lastWritten: Option<string>, history: AH.History<T>)

  predicate Valid<T>(s: Sync<T>) {
    AH.Valid(s.history)
  }

  /** `parseFromParams`: absent or empty parameter, or unparsable JSON, gives the initial value. */
  function ParseFromParams<T, P>(codec: Codec<T, P>, initial: T, param: Option<string>): T {
    match param
    case None => initial
    case Some(raw) =>
      if raw == "" then initial
      else match codec.parse(raw)
        case None => initial
        case Some(p) => codec.merge(initial, p)
  }

  /** The effect that reacts to URL changes made by someone else. */
  function ExternalSync<T, P>(codec: Codec<T, P>, initial: T, s: Sync<T>): (r: Sync<T>)
    ensures r.param == s.param
    ensures Valid(s) ==> Valid(r)
    ensures (s.param == None || s.param == Some("") || s.param == s.lastWritten) ==> r == s
    ensures s.param.Some? && codec.parse(s.param.value).None? ==> r == s
  {
    match s.param
    case None => s
    case Some(raw) =>
      if raw == "" || s.lastWritten == Some(raw) then s
      else match codec.parse(raw)
        case None => s
        case Some(p) =>
          var parsed := codec.merge(initial, p);
          if Same(codec, parsed, s.filters) then s.(lastWritten := Some(raw))
          else s.(filters := parsed, lastWritten := Some(raw), history := AH.Push(s.history, parsed))
  }

  /** First render plus the two mount effects: record the initial serialisation, then run
      the external-URL effect once. */
  function Mount<T, P>(codec: Codec<T, P>, initial: T, param: Option<string>): (r: Sync<T>)
    ensures Valid(r)
  {
    var f := ParseFromParams(codec, initial, param);
    ExternalSync(codec, initial, Sync(f, param, Some(codec.serialize(f)), AH.Init(f)))
  }

  /** `writeToUrl`: returns the new parameter and last-written record. Afterwards the record
      is always the serialisation of `next`; the URL is left alone when that serialisation was
      already the one last written, and shows it otherwise. */
  function WriteToUrl<T, P>(codec: Codec<T, P>, s: Sync<T>, next: T): (r: (Option<string>, Option<string>))
    ensures r.1 == Some(codec.serialize(next))
    ensures r.0 == r.1 || r.0 == s.param
    ensures s.lastWritten == r.1 ==> r.0 == s.param
    ensures s.lastWritten != r.1 ==> r.0 == r.1
  {
    var serialized := codec.serialize(next);
    if s.lastWritten == Some(serialized) then (s.param, s.lastWritten) else (Some(serialized), Some(serialized))
  }

  /** `setFilters(updater)`: a direct value is the constant updater. */
  function SetFilters<T, P>(codec: Codec<T, P>, s: Sync<T>, update: T -> T): (r: Sync<T>)
    ensures Valid(s) ==> Valid(r)
    ensures Same(codec, s.filters, update(s.filters)) ==> r == s
    ensures !Same(codec, s.filters, update(s.filters)) ==>
              && r.filters == update(s.filters)
              && r.history == AH.Push(s.history, update(s.filters))
              && r.lastWritten == Some(codec.serialize(update(s.filters)))
              && (r.param == Some(codec.serialize(update(s.filters))) || r.param == s.param)
  {
    var next := update(s.filters);
    if Same(codec, s.filters, next) then s
    else
      var (param, written) := WriteToUrl(codec, s, next);
      Sync(next, param, written, AH.Push(s.history, next))
  }

  /** `onHistoryApply`: the snapshot becomes the state, the URL and the last-written record. */
  function ApplySnapshot<T, P>(codec: Codec<T, P>, s: Sync<T>, h: AH.History<T>, snapshot: Option<T>): Sync<T> {
    match snapshot
    case None => s.(history := h)
    case Some(v) =>
      var serialized := codec.serialize(v);
      Sync(v, Some(serialized), Some(serialized), h)
  }

  /** The events the store reacts to. */
  datatype Event<!T> =
    | SetFiltersEv(update: T -> T)
    | Navigate(param: Option<string>)
    | Flush
    | UndoKey
    | RedoKey

  function Step<T, P>(codec: Codec<T, P>, initial: T, limit: int, s: Sync<T>, e: Event<T>): (r: Sync<T>)
    requires Valid(s)
    ensures Valid(r)
  {
    match e
    case SetFiltersEv(update) => SetFilters(codec, s, update)
    case Navigate(param) => ExternalSync(codec, initial, s.(param := param))
    case Flush => s.(history := AH.Flush(s.history, limit, SameFn(codec)))
    case UndoKey =>
      var (h, v) := AH.Undo(s.history);
      ApplySnapshot(codec, s, h, v)
    case RedoKey =>
      var (h, v) := AH.Redo(s.history);
      ApplySnapshot(codec, s, h, v)
  }

  function Run<T, P>(codec: Codec<T, P>, initial: T, limit: int, s: Sync<T>, events: seq<Event<T>>): (r: Sync<T>)
    requires Valid(s)
    ensures Valid(r)
    decreases |events|
  {
    if events == [] then s else Run(codec, initial, limit, Step(codec, initial, limit, s, events[0]), events[1..])
  }

  /** The last-written record stands for the current filters: it is their serialisation, or a
      parameter the store accepted whose parsed value equals them. */
  predicate Consistent<T, P>(codec: Codec<T, P>, initial: T, s: Sync<T>) {
    && s.lastWritten.Some?
    && (|| s.lastWritten.value == codec.serialize(s.filters)
        || (codec.parse(s.lastWritten.value).Some?
            && Same(codec, codec.merge(initial, codec.parse(s.lastWritten.value).value), s.filters)))
  }

  /** JSON round trip: parsing a serialisation and spreading it over the initial value gives
      the serialised value back. */
  ghost predicate RoundTrips<T(!new), P>(codec: Codec<T, P>, initial: T) {
    forall x: T :: codec.parse(codec.serialize(x)).Some? && codec.merge(initial, codec.parse(codec.serialize(x)).value) == x
  }

  /** Mounting yields the initial value when the parameter is absent, empty or unparsable,
      and otherwise the initial value overridden by the parsed fields; the history holds
      exactly that value and the store is consistent. */
  lemma MountFilters<T, P>(codec: Codec<T, P>, initial: T, param: Option<string>)
    ensures Mount(codec, initial, param).history == AH.Init(Mount(codec, initial, param).filters)
    ensures Consistent(codec, initial, Mount(codec, initial, param))
    ensures (param == None || param == Some("") || codec.parse(param.value).None?) ==>
              Mount(codec, initial, param).filters == initial
    ensures param.Some? && param.value != "" && codec.parse(param.value).Some? ==>
              Mount(codec, initial, param).filters == codec.merge(initial, codec.parse(param.value).value)
  {
  }

  /** An external parameter that parses to a value equal to the filters only updates the record. */
  lemma ExternalEqualOnlyRecords<T, P>(codec: Codec<T, P>, initial: T, s: Sync<T>, raw: string)
    requires raw != "" && Some(raw) != s.lastWritten
    requires codec.parse(raw).Some? && Same(codec, codec.merge(initial, codec.parse(raw).value), s.filters)
    ensures ExternalSync(codec, initial, s.(param := Some(raw))) == s.(param := Some(raw), lastWritten := Some(raw))
  {
  }

  /** A differing external parameter replaces the state, is recorded and is pushed to history. */
  lemma ExternalChangeWins<T, P>(codec: Codec<T, P>, initial: T, s: Sync<T>, raw: string)
    requires raw != "" && Some(raw) != s.lastWritten
    requires codec.parse(raw).Some? && !Same(codec, codec.merge(initial, codec.parse(raw).value), s.filters)
    ensures var r := ExternalSync(codec, initial, s.(param := Some(raw)));
            && r.filters == codec.merge(initial, codec.parse(raw).value)
            && r.lastWritten == Some(raw)
            && r.history == AH.Push(s.history, r.filters)
  {
  }

  /** Applying a snapshot from undo or redo leaves state, URL and record in agreement, and
      the URL change it causes is not taken for an external one. */
  lemma UndoRedoConsistent<T, P>(codec: Codec<T, P>, initial: T, limit: int, s: Sync<T>, e: Event<T>)
    requires Valid(s) && (e == UndoKey || e == RedoKey)
    requires var v := if e == UndoKey then AH.Undo(s.history).1 else AH.Redo(s.history).1; v.Some?
    ensures var r := Step(codec, initial, limit, s, e);
            && r.param == r.lastWritten == Some(codec.serialize(r.filters))
            && ExternalSync(codec, initial, r) == r
  {
  }

  /** Every event keeps the store consistent. */
  lemma {:induction false} StepKeepsConsistent<T, P>(codec: Codec<T, P>, initial: T, limit: int, s: Sync<T>, e: Event<T>)
    requires Valid(s) && Consistent(codec, initial, s)
    ensures Consistent(codec, initial, Step(codec, initial, limit, s, e))
  {
    match e
    case SetFiltersEv(update) =>
    case Navigate(param) =>
      ExternalKeepsConsistent(codec, initial, s.(param := param));
    case Flush =>
    case UndoKey =>
    case RedoKey =>
  }

  lemma ExternalKeepsConsistent<T, P>(codec: Codec<T, P>, initial: T, s: Sync<T>)
    requires Consistent(codec, initial, s)
    ensures Consistent(codec, initial, ExternalSync(codec, initial, s))
  {
  }

  lemma {:induction false} RunKeepsConsistent<T, P>(codec: Codec<T, P>, initial: T, limit: int, s: Sync<T>, events: seq<Event<T>>)
    requires Valid(s) && Consistent(codec, initial, s)
    ensures Consistent(codec, initial, Run(codec, initial, limit, s, events))
    decreases |events|
  {
    if events != [] {
      StepKeepsConsistent(codec, initial, limit, s, events[0]);
      RunKeepsConsistent(codec, initial, limit, Step(codec, initial, limit, s, events[0]), events[1..]);
    }
  }

  /** In a consistent store with round-tripping JSON, a changed value is always written to the
      URL, and the URL change this causes is not taken for an external one. */
  lemma OwnWritesAreNotExternal<T(!new), P>(codec: Codec<T, P>, initial: T, s: Sync<T>, update: T -> T)
    requires Consistent(codec, initial, s) && RoundTrips(codec, initial)
    requires !Same(codec, s.filters, update(s.filters))
    ensures SetFilters(codec, s, update).param == Some(codec.serialize(update(s.filters)))
    ensures ExternalSync(codec, initial, SetFilters(codec, s, update)) == SetFilters(codec, s, update)
  {
  }
}
