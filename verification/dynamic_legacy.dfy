/** The earlier reactive cell (`Dynamic<T>` in src/dynamic.rs), sequential
    model. It differs from the current one: `map_mut` advances the generation
    without running callbacks, and the reader's `get` does not mark the value
    as read. */
module LegacyDynamic {
  import opened Common
  import CushyValue

  datatype GenerationalValue<T> = GenerationalValue(value: T, generation: Usize)

  class DynamicData<T(==)> {
    var value: T
    var generation: Usize
    var readers: nat
    var handles: nat
    var callbacks: nat
    /** One entry per callback pass: the value all callbacks were handed. */
    var dispatched: seq<GenerationalValue<T>>
    var windows: seq<nat>
    /** Windows sent a `Redraw` command, in order. */
    var redrawn: seq<nat>

    constructor (initial: T)
      ensures value == initial && generation == 0 && readers == 0 && handles == 1
      ensures callbacks == 0 && dispatched == [] && windows == [] && redrawn == []
    {
      value := initial;
      generation := 0;
      readers := 0;
      handles := 1;
      callbacks := 0;
      dispatched := [];
      windows := [];
      redrawn := [];
    }

    function Wrapped(): GenerationalValue<T>
      reads this
    {
      GenerationalValue(value, generation)
    }

    /** `Dynamic::map_mut`: the generation always advances (wrapping) before
        the mutation is applied; no callback runs and no window is redrawn. */
    method MapMut(mutate: T -> T)
      modifies this
      ensures generation == CushyValue.NextGeneration(old(generation))
      ensures value == mutate(old(value))
      ensures dispatched == old(dispatched) && windows == old(windows) && redrawn == old(redrawn)
      ensures readers == old(readers) && handles == old(handles) && callbacks == old(callbacks)
    {
      generation := CushyValue.NextGeneration(generation);
      value := mutate(value);
    }

    /** `DynamicData::replace`: returns the old generational value; every
        callback sees the new one; the window list is drained. */
    method Replace(newValue: T) returns (previous: GenerationalValue<T>)
      modifies this
      ensures previous == old(Wrapped())
      ensures value == newValue && generation == CushyValue.NextGeneration(previous.generation)
      ensures dispatched == old(dispatched) + [Wrapped()]
      ensures redrawn == old(redrawn) + old(windows) && windows == []
      ensures readers == old(readers) && handles == old(handles) && callbacks == old(callbacks)
    {
      previous := Wrapped();
      value := newValue;
      generation := CushyValue.NextGeneration(generation);
      dispatched := dispatched + [Wrapped()];
      redrawn := redrawn + windows;
      windows := [];
    }

    /** `Dynamic::set` */
    method Set(newValue: T)
      modifies this
      ensures value == newValue && generation == CushyValue.NextGeneration(old(generation))
      ensures dispatched == old(dispatched) + [Wrapped()]
      ensures redrawn == old(redrawn) + old(windows) && windows == []
      ensures readers == old(readers) && handles == old(handles) && callbacks == old(callbacks)
    {
      var _ := Replace(newValue);
    }

    /** `DynamicData::map_each`: starts at `map(current)`. */
    method MapEach<R(==)>(f: T -> R) returns (mapped: DynamicData<R>)
      modifies this
      ensures fresh(mapped) && mapped.value == f(value) && mapped.generation == 0
      ensures mapped.handles == 2 && mapped.readers == 0
      ensures callbacks == old(callbacks) + 1
      ensures value == old(value) && generation == old(generation) && dispatched == old(dispatched)
      ensures readers == old(readers) && handles == old(handles)
      ensures windows == old(windows) && redrawn == old(redrawn)
    {
      mapped := new DynamicData(f(value));
      mapped.handles := 2;
      callbacks := callbacks + 1;
    }

    /** `Dynamic::create_ref_reader` */
    method CreateRefReader() returns (reader: DynamicRefReader<T>)
      modifies this
      ensures fresh(reader) && reader.source == this && reader.readGeneration == generation
      ensures readers == old(readers) + 1
      ensures value == old(value) && generation == old(generation) && handles == old(handles)
      ensures callbacks == old(callbacks) && dispatched == old(dispatched)
      ensures windows == old(windows) && redrawn == old(redrawn)
    {
      readers := readers + 1;
      reader := new DynamicRefReader(this, generation);
    }

    method DropHandle()
      requires handles > 0
      modifies this
      ensures handles == old(handles) - 1
      ensures value == old(value) && generation == old(generation) && readers == old(readers)
      ensures callbacks == old(callbacks) && dispatched == old(dispatched)
      ensures windows == old(windows) && redrawn == old(redrawn)
    {
      handles := handles - 1;
    }
  }

  class DynamicRefReader<T(==)> {
    const source: DynamicData<T>
    var readGeneration: Usize

    constructor (source: DynamicData<T>, at: Usize)
      ensures this.source == source && readGeneration == at
    {
      this.source := source;
      readGeneration := at;
    }

    /** `DynamicRefReader::map_ref`: reading through it resynchronises. */
    method MapRef<R>(f: T -> R) returns (r: R)
      modifies this
      ensures r == f(source.value) && readGeneration == source.generation
    {
      readGeneration := source.generation;
      r := f(source.value);
    }

    /** `DynamicRefReader::get`: a plain snapshot, the read generation is kept. */
    method Get() returns (v: T)
      ensures v == source.value
    {
      v := source.value;
    }

    /** One pass of `block_until_updated`'s loop. */
    method BlockUntilUpdated() returns (outcome: CushyValue.WaitOutcome)
      ensures outcome == CushyValue.Updated <==> source.generation != readGeneration
      ensures outcome == CushyValue.Disconnected <==>
        source.generation == readGeneration && source.readers == source.handles + source.readers
      ensures outcome == CushyValue.MustWait <==>
        source.generation == readGeneration && source.handles > 0
    {
      if source.generation != readGeneration {
        outcome := CushyValue.Updated;
      } else if source.readers == source.handles + source.readers {
        outcome := CushyValue.Disconnected;
      } else {
        outcome := CushyValue.MustWait;
      }
    }

    method Drop()
      requires source.readers > 0
      modifies source
      ensures source.readers == old(source.readers) - 1
      ensures source.handles == old(source.handles) && source.generation == old(source.generation)
      ensures source.value == old(source.value)
      ensures source.callbacks == old(source.callbacks) && source.dispatched == old(source.dispatched)
      ensures source.windows == old(source.windows) && source.redrawn == old(source.redrawn)
    {
      source.readers := source.readers - 1;
    }
  }

  /** The `disconnecting_reader_from_dynamic` test of this module. */
  method DisconnectingRefReader() returns (outcome: CushyValue.WaitOutcome)
    ensures outcome == CushyValue.Disconnected
  {
    var value := new DynamicData(1);
    var reader := value.CreateRefReader();
    value.DropHandle();
    outcome := reader.BlockUntilUpdated();
  }

  /** `get` alone leaves the reader behind: after a `set`, it still reports an
      update until `map_ref` resynchronises it. */
  method GetDoesNotResynchronise() returns (first: CushyValue.WaitOutcome, second: CushyValue.WaitOutcome)
    ensures first == CushyValue.Updated && second == CushyValue.MustWait
  {
    var value := new DynamicData(1);
    var reader := value.CreateRefReader();
    value.Set(2);
    var _ := reader.Get();
    first := reader.BlockUntilUpdated();
    var _ := reader.MapRef(x => x);
    second := reader.BlockUntilUpdated();
  }
}
