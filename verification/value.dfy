/** The reactive cell of the current toolkit (`Dynamic<T>` in src/value.rs),
    with its readers and its mutable guard, as a sequential state model.
    Locking, condition-variable waits and thread-based deadlock detection are
    not modelled: every operation runs to completion in one step. Callbacks
    are modelled by their number and by the log of values they were handed. */
module CushyValue {
  import opened Common

  /** `Generation::next`: a wrapping increment of a `usize`. */
  function NextGeneration(g: Usize): (r: Usize)
    ensures g < USIZE_MAX ==> r == g + 1
    ensures g == USIZE_MAX ==> r == 0
  {
    (g + 1) % (USIZE_MAX + 1)
  }

  /** The generation reached after `k` consecutive changes. */
  function GenerationAfter(g: Usize, k: nat): Usize
  {
    if k == 0 then g else NextGeneration(GenerationAfter(g, k - 1))
  }

  lemma {:induction false} GenerationAfterIsModular(g: Usize, k: nat)
    ensures GenerationAfter(g, k) == (g + k) % (USIZE_MAX + 1)
  {
    if k > 0 {
      var previous := GenerationAfter(g, k - 1);
      GenerationAfterIsModular(g, k - 1);
      assert previous == (g + k - 1) % (USIZE_MAX + 1);
      WrappingSucc(g + k - 1);
      assert GenerationAfter(g, k) == (previous + 1) % (USIZE_MAX + 1);
    }
  }

  /** Incrementing a remainder modulo 2^64 is the remainder of the increment. */
  lemma WrappingSucc(x: nat)
    ensures (x % (USIZE_MAX + 1) + 1) % (USIZE_MAX + 1) == (x + 1) % (USIZE_MAX + 1)
  {
    if x % (USIZE_MAX + 1) < USIZE_MAX {
      assert (x + 1) % (USIZE_MAX + 1) == x % (USIZE_MAX + 1) + 1;
    } else {
      assert (x + 1) % (USIZE_MAX + 1) == 0;
    }
  }

  /** A reader that synchronised at generation `g` sees an update after `k`
      changes exactly when `k` is not a multiple of 2^64: only a full wrap
      of the counter can hide changes from it. */
  lemma ReaderSeesChangesUnlessFullWrap(g: Usize, k: nat)
    ensures GenerationAfter(g, k) != g <==> k % (USIZE_MAX + 1) != 0
  {
    GenerationAfterIsModular(g, k);
  }

  datatype GenerationalValue<T> = GenerationalValue(value: T, generation: Usize)

  /** What one pass of `block_until_updated`'s loop finds. */
  datatype WaitOutcome = Updated | Disconnected | MustWait

  /** `DynamicData<T>` together with its `State<T>`. `handles` counts the
      `Dynamic` handles and `readers` the `DynamicReader`s; together they are
      the `Arc`'s strong count. */
  class DynamicData<T(==)> {
    var value: T
    var generation: Usize
    var readers: nat
    var handles: nat
    /** Number of registered change callbacks. */
    var callbacks: nat
    /** One entry per `note_changed`: the value every callback was handed. */
    var dispatched: seq<GenerationalValue<T>>
    /** Windows waiting for a redraw on the next change. */
    var windows: seq<nat>
    /** Windows asked to redraw, in order. */
    var redrawn: seq<nat>

    /** `Dynamic::new` */
    constructor (initial: T)
      ensures value == initial && generation == 0
      ensures readers == 0 && handles == 1 && callbacks == 0
      ensures dispatched == [] && windows == [] && redrawn == []
    {
      value := initial;
      generation := 0;
      readers := 0;
      handles := 1;
      callbacks := 0;
      dispatched := [];
      windows := [];
      redrawn := [];
    }

    function StrongCount(): nat
      reads this
    {
      handles + readers
    }

    /** `State::note_changed`: advance the generation once, hand the new
        value to every callback, and drain the windows awaiting a redraw. */
    method NoteChanged()
      modifies this
      ensures generation == NextGeneration(old(generation))
      ensures dispatched == old(dispatched) + [GenerationalValue(value, generation)]
      ensures redrawn == old(redrawn) + old(windows) && windows == []
      ensures value == old(value) && readers == old(readers)
      ensures handles == old(handles) && callbacks == old(callbacks)
    {
      generation := NextGeneration(generation);
      dispatched := dispatched + [GenerationalValue(value, generation)];
      redrawn := redrawn + windows;
      windows := [];
    }

    /** `Dynamic::replace`: store `newValue`, notify once, return the old value. */
    method Replace(newValue: T) returns (previous: T)
      modifies this
      ensures previous == old(value) && value == newValue
      ensures generation == NextGeneration(old(generation))
      ensures dispatched == old(dispatched) + [GenerationalValue(newValue, generation)]
      ensures redrawn == old(redrawn) + old(windows) && windows == []
      ensures readers == old(readers) && handles == old(handles) && callbacks == old(callbacks)
    {
      previous := value;
      value := newValue;
      NoteChanged();
    }

    /** `Dynamic::set` */
    method Set(newValue: T)
      modifies this
      ensures value == newValue
      ensures generation == NextGeneration(old(generation))
      ensures dispatched == old(dispatched) + [GenerationalValue(newValue, generation)]
      ensures redrawn == old(redrawn) + old(windows) && windows == []
      ensures readers == old(readers) && handles == old(handles) && callbacks == old(callbacks)
    {
      var _ := Replace(newValue);
    }

    /** `Dynamic::update`: only an unequal value is stored and notified. */
    method Update(newValue: T) returns (changed: bool)
      modifies this
      ensures changed <==> old(value) != newValue
      ensures value == newValue
      ensures !changed ==>
        && generation == old(generation) && dispatched == old(dispatched)
        && windows == old(windows) && redrawn == old(redrawn)
      ensures changed ==>
        && generation == NextGeneration(old(generation))
        && dispatched == old(dispatched) + [GenerationalValue(newValue, generation)]
        && redrawn == old(redrawn) + old(windows) && windows == []
      ensures readers == old(readers) && handles == old(handles) && callbacks == old(callbacks)
    {
      if value == newValue {
        changed := false;
      } else {
        value := newValue;
        NoteChanged();
        changed := true;
      }
    }

    /** `Dynamic::take`: the value is moved out through a mutable guard,
        leaving `T::default()` (passed in as `default`); the guard's drop
        notifies. */
    method Take(default: T) returns (taken: T)
      modifies this
      ensures taken == old(value) && value == default
      ensures generation == NextGeneration(old(generation))
      ensures dispatched == old(dispatched) + [GenerationalValue(default, generation)]
      ensures redrawn == old(redrawn) + old(windows) && windows == []
      ensures readers == old(readers) && handles == old(handles) && callbacks == old(callbacks)
    {
      taken := value;
      value := default;
      NoteChanged();
    }

    /** `Dynamic::take_if_not_default` */
    method TakeIfNotDefault(default: T) returns (taken: Option<T>)
      modifies this
      ensures old(value) == default ==>
        && taken == None && value == old(value)
        && generation == old(generation) && dispatched == old(dispatched)
        && windows == old(windows) && redrawn == old(redrawn)
      ensures old(value) != default ==>
        && taken == Some(old(value)) && value == default
        && generation == NextGeneration(old(generation))
        && dispatched == old(dispatched) + [GenerationalValue(default, generation)]
        && redrawn == old(redrawn) + old(windows) && windows == []
      ensures readers == old(readers) && handles == old(handles) && callbacks == old(callbacks)
    {
      if value == default {
        taken := None;
      } else {
        taken := Some(value);
        value := default;
        NoteChanged();
      }
    }

    /** `Dynamic::redraw_when_changed` */
    method RedrawWhenChanged(window: nat)
      modifies this
      ensures windows == old(windows) + [window]
      ensures value == old(value) && generation == old(generation) && dispatched == old(dispatched)
      ensures redrawn == old(redrawn) && readers == old(readers) && handles == old(handles)
      ensures callbacks == old(callbacks)
    {
      windows := windows + [window];
    }

    /** `Dynamic::map_each`: the new dynamic starts at `map(current)`; a callback
        holding one of its handles is registered on this value. */
    method MapEach<R(==)>(f: T -> R) returns (mapped: DynamicData<R>)
      modifies this
      ensures fresh(mapped)
      ensures mapped.value == f(value) && mapped.generation == 0
      ensures mapped.handles == 2 && mapped.readers == 0 && mapped.callbacks == 0
      ensures mapped.dispatched == []
      ensures callbacks == old(callbacks) + 1
      ensures value == old(value) && generation == old(generation) && dispatched == old(dispatched)
      ensures windows == old(windows) && redrawn == old(redrawn)
      ensures readers == old(readers) && handles == old(handles)
    {
      mapped := new DynamicData(f(value));
      mapped.handles := 2;
      callbacks := callbacks + 1;
    }

    /** `Dynamic::create_reader`: one more reader, synchronised with the
        current generation. */
    method CreateReader() returns (reader: DynamicReader<T>)
      modifies this
      ensures fresh(reader) && reader.source == this
      ensures reader.readGeneration == generation
      ensures !reader.HasUpdated()
      ensures readers == old(readers) + 1
      ensures value == old(value) && generation == old(generation) && handles == old(handles)
      ensures callbacks == old(callbacks) && dispatched == old(dispatched)
      ensures windows == old(windows) && redrawn == old(redrawn)
    {
      readers := readers + 1;
      reader := new DynamicReader(this, generation);
    }

    /** `Dynamic::clone` */
    method CloneHandle()
      modifies this
      ensures handles == old(handles) + 1
      ensures value == old(value) && generation == old(generation) && readers == old(readers)
      ensures callbacks == old(callbacks) && dispatched == old(dispatched)
      ensures windows == old(windows) && redrawn == old(redrawn)
    {
      handles := handles + 1;
    }

    /** `Dynamic::drop` */
    method DropHandle()
      requires handles > 0
      modifies this
      ensures handles == old(handles) - 1
      ensures value == old(value) && generation == old(generation) && readers == old(readers)
      ensures callbacks == old(callbacks) && dispatched == old(dispatched)
      ensures windows == old(windows) && redrawn == old(redrawn)
    {
      handles := handles - 1;
    }

    /** `Dynamic::lock` */
    method Lock() returns (guard: DynamicGuard<T>)
      ensures fresh(guard) && guard.cell == this && !guard.accessedMut
    {
      guard := new DynamicGuard(this);
    }
  }

  /** `DynamicGuard`: exclusive access whose drop notifies only when the
      contents were reached through `DerefMut`. */
  class DynamicGuard<T(==)> {
    const cell: DynamicData<T>
    var accessedMut: bool

    constructor (cell: DynamicData<T>)
      ensures this.cell == cell && !accessedMut
    {
      this.cell := cell;
      accessedMut := false;
    }

    /** `Deref`: read access. */
    function Get(): T
      reads cell
    {
      cell.value
    }

    /** A write through `DerefMut`. */
    method Write(newValue: T)
      modifies this, cell
      ensures accessedMut && cell.value == newValue
      ensures cell.generation == old(cell.generation) && cell.dispatched == old(cell.dispatched)
      ensures cell.readers == old(cell.readers) && cell.handles == old(cell.handles)
      ensures cell.callbacks == old(cell.callbacks)
      ensures cell.windows == old(cell.windows) && cell.redrawn == old(cell.redrawn)
    {
      accessedMut := true;
      cell.value := newValue;
    }

    /** `Drop for DynamicGuard` */
    method Drop()
      modifies cell
      ensures cell.value == old(cell.value)
      ensures accessedMut ==>
        && cell.generation == NextGeneration(old(cell.generation))
        && cell.dispatched == old(cell.dispatched) + [GenerationalValue(cell.value, cell.generation)]
        && cell.redrawn == old(cell.redrawn) + old(cell.windows) && cell.windows == []
      ensures !accessedMut ==>
        && cell.generation == old(cell.generation) && cell.dispatched == old(cell.dispatched)
        && cell.windows == old(cell.windows) && cell.redrawn == old(cell.redrawn)
      ensures cell.readers == old(cell.readers) && cell.handles == old(cell.handles)
      ensures cell.callbacks == old(cell.callbacks)
    {
      if accessedMut {
        cell.NoteChanged();
      }
    }
  }

  /** `DynamicReader<T>`: a cursor remembering the last generation it read. */
  class DynamicReader<T(==)> {
    const source: DynamicData<T>
    var readGeneration: Usize

    constructor (source: DynamicData<T>, at: Usize)
      ensures this.source == source && readGeneration == at
    {
      this.source := source;
      readGeneration := at;
    }

    /** `DynamicReader::has_updated` */
    predicate HasUpdated()
      reads this, source
    {
      source.generation != readGeneration
    }

    /** `DynamicReader::get` (and `map_ref`): read and resynchronise. */
    method Get() returns (v: T)
      modifies this
      ensures v == source.value
      ensures readGeneration == source.generation && !HasUpdated()
    {
      readGeneration := source.generation;
      v := source.value;
    }

    /** One pass of `block_until_updated`: a changed generation wins; otherwise,
        when every remaining strong reference is a reader, no writer is left. */
    method BlockUntilUpdated() returns (outcome: WaitOutcome)
      ensures outcome == Updated <==> HasUpdated()
      ensures outcome == Disconnected <==> !HasUpdated() && source.readers == source.StrongCount()
      ensures outcome == MustWait <==> !HasUpdated() && source.handles > 0
    {
      if source.generation != readGeneration {
        outcome := Updated;
      } else if source.readers == source.StrongCount() {
        outcome := Disconnected;
      } else {
        outcome := MustWait;
      }
    }

    /** `DynamicReader::clone`: the copy starts at the same read generation. */
    method CloneReader() returns (copy: DynamicReader<T>)
      modifies source
      ensures fresh(copy) && copy.source == source && copy.readGeneration == readGeneration
      ensures source.readers == old(source.readers) + 1
      ensures source.handles == old(source.handles) && source.generation == old(source.generation)
      ensures source.value == old(source.value)
      ensures source.callbacks == old(source.callbacks) && source.dispatched == old(source.dispatched)
      ensures source.windows == old(source.windows) && source.redrawn == old(source.redrawn)
    {
      source.readers := source.readers + 1;
      copy := new DynamicReader(source, readGeneration);
    }

    /** `Drop for DynamicReader` */
    method Drop()
      requires source.readers > 0
      modifies source
      ensures source.readers == old(source.readers) - 1
      ensures source.handles == old(source.handles) && source.generation == old(source.generation)
      ensures source.value == old(source.value)
      ensures source.callbacks == old(source.callbacks) && source.dispatched == old(source.dispatched)
      ensures source.windows == old(source.windows) && source.redrawn == old(source.redrawn)
    {
      source.readers := source.readers - 1;
    }
  }

  /** The `disconnecting_reader_from_dynamic` scenario: once the only
      `Dynamic` is dropped, the reader's wait reports no further updates. */
  method DisconnectingReaderFromDynamic() returns (outcome: WaitOutcome)
    ensures outcome == Disconnected
  {
    var value := new DynamicData(1);
    var reader := value.CreateReader();
    value.DropHandle();
    outcome := reader.BlockUntilUpdated();
  }

  /** A reader created before a `set` sees the update; after reading it is
      synchronised again. */
  method ReaderObservesSet() returns (before: WaitOutcome, seen: int, after: bool)
    ensures before == Updated && seen == 2 && !after
  {
    var value := new DynamicData(1);
    var reader := value.CreateReader();
    value.Set(2);
    before := reader.BlockUntilUpdated();
    seen := reader.Get();
    after := reader.HasUpdated();
  }
}
