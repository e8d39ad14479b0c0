/**
 * The local-storage hook: a state value mirrored under one storage key. The initial value is
 * read from storage with a fallback, `setValue` updates the state and writes the serialised
 * value, and storage events from other tabs for the same key replace the state. Every
 * failure is caught: a codec returning None stands for a throwing serialiser or parser, and
 * `readable`/`writable` say whether storage access throws. Storage is a map from key to
 * string.
 */
module LocalStorage {
  import opened Wrappers

  /** The serialiser and parser; None means the call throws. */
  datatype Codec<!T> = Codec(serialize: T -> Option<string>, deserialize: string -> Option<T>)

  /** The parser reads back what the serialiser wrote for `v`, as a non-empty string. */
  ghost predicate RoundTrips<T>(codec: Codec<T>, v: T) {
    var s := codec.serialize(v);
    s.Some? && s.value != [] && codec.deserialize(s.value) == Some(v)
  }

  /** The lazy initial state. */
  function Initial<T>(storage: map<string, string>, readable: bool, key: string, initialValue: T, codec: Codec<T>): (r: T)
    ensures !readable || key !in storage ==> r == initialValue
    ensures readable && key in storage && storage[key] == [] ==> r == initialValue
    ensures readable && key in storage && storage[key] != [] && codec.deserialize(storage[key]).Some? ==>
              r == codec.deserialize(storage[key]).value
    ensures r != initialValue ==> readable && key in storage && storage[key] != [] && codec.deserialize(storage[key]) == Some(r)
  {
    if !readable || key !in storage then initialValue
    else
      var item := storage[key];
      if item == [] then initialValue
      else match codec.deserialize(item)
        case Some(v) => v
        case None => initialValue
  }

  /** The argument of `setValue`: a value, or a function of the current value. */
  datatype Update<!T> = Set(value: T) | Apply(f: T -> T)

  /** `setValue`: the new state and storage. The state is set before serialising, so a
      failing serialiser or write still changes the state but leaves storage alone. */
  function SetValue<T>(state: T, storage: map<string, string>, writable: bool, key: string, update: Update<T>, codec: Codec<T>): (r: (T, map<string, string>))
    ensures r.0 == (match update case Set(v) => v case Apply(f) => f(state))
    ensures writable && codec.serialize(r.0).Some? ==> r.1 == storage[key := codec.serialize(r.0).value]
    ensures !writable || codec.serialize(r.0).None? ==> r.1 == storage
    ensures forall k :: k != key ==> (k in r.1 <==> k in storage) && (k in storage ==> r.1[k] == storage[k])
  {
    var next := match update case Set(v) => v case Apply(f) => f(state);
    match codec.serialize(next)
    case Some(s) => if writable then (next, storage[key := s]) else (next, storage)
    case None => (next, storage)
  }

  /** A storage event: only one for the same key with a non-empty new value that parses
      changes the state. A cleared storage has no key. */
  function StorageEvent<T>(state: T, key: string, eventKey: Option<string>, newValue: Option<string>, codec: Codec<T>): (r: T)
    ensures eventKey != Some(key) ==> r == state
    ensures newValue.None? || newValue == Some([]) ==> r == state
    ensures r != state ==> eventKey == Some(key) && newValue.Some? && codec.deserialize(newValue.value) == Some(r)
  {
    if eventKey == Some(key) && newValue.Some? && newValue.value != [] then
      match codec.deserialize(newValue.value)
      case Some(v) => v
      case None => state
    else state
  }

  /** A value written with `setValue` is the value a reload reads back, when the codec
      round-trips it and storage works. */
  lemma ReloadReadsWrittenValue<T>(state: T, storage: map<string, string>, key: string, update: Update<T>, initialValue: T, codec: Codec<T>)
    requires RoundTrips(codec, SetValue(state, storage, true, key, update, codec).0)
    ensures var (next, written) := SetValue(state, storage, true, key, update, codec);
            Initial(written, true, key, initialValue, codec) == next
  {
  }

  /** Another tab's `setValue` reaches this tab's state through the storage event it raises. */
  lemma OtherTabFollows<T>(mine: T, theirs: T, storage: map<string, string>, key: string, update: Update<T>, codec: Codec<T>)
    requires RoundTrips(codec, SetValue(theirs, storage, true, key, update, codec).0)
    ensures var (next, written) := SetValue(theirs, storage, true, key, update, codec);
            StorageEvent(mine, key, Some(key), Some(written[key]), codec) == next
  {
  }

  /** Without storage, the hook behaves as plain state: reads give the initial value and
      writes change nothing stored. */
  lemma UnavailableStorageIsPlainState<T>(state: T, storage: map<string, string>, key: string, update: Update<T>, initialValue: T, codec: Codec<T>)
    ensures Initial(storage, false, key, initialValue, codec) == initialValue
    ensures SetValue(state, storage, false, key, update, codec).1 == storage
  {
  }
}
