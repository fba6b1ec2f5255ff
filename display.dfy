/**
 * The video encoder's display (src/guacenc/display.h, src/guacenc/display.c):
 * three fixed-capacity slot tables of layers, off-screen buffers and image
 * streams addressed by protocol index, plus the timestamp of the last sync.
 */
module GuacDisplay {
  import opened Wrappers
  import opened GuacBuffer

  /** Capacity of the off-screen buffer table. */
  const MAX_BUFFERS: int := 4096

  /** Capacity of the layer table. */
  const MAX_LAYERS: int := 64

  /** Capacity of the image-stream table. */
  const MAX_STREAMS: int := 64

  // ---------------------------------------------------------------------
  // Index space
  // ---------------------------------------------------------------------

  /**
   * Buffers have negative protocol indices: -1 is table entry 0, -2 entry 1,
   * and so on. The map is its own inverse, so it also gives the protocol
   * index of a table entry.
   */
  function InternalBufferIndex(index: int): (internal: int)
    ensures internal >= 0 <==> index < 0
  {
    -index - 1
  }

  /** Applying the transform twice gives back the index: entry and protocol index determine each other. */
  lemma InternalBufferIndexSelfInverse(index: int)
    ensures InternalBufferIndex(InternalBufferIndex(index)) == index
  {
  }

  /** No two protocol indices share a buffer table entry. */
  lemma InternalBufferIndexInjective(i: int, j: int)
    requires InternalBufferIndex(i) == InternalBufferIndex(j)
    ensures i == j
  {
  }

  /** Every buffer table entry is reached from one index in [-4096, -1], the one the transform maps it back to. */
  lemma InternalBufferIndexOnto(internal: int)
    requires 0 <= internal < MAX_BUFFERS
    ensures -MAX_BUFFERS <= InternalBufferIndex(internal) <= -1
    ensures InternalBufferIndex(InternalBufferIndex(internal)) == internal
  {
  }

  /**
   * The layer index check exactly as the C code writes it: true means
   * "rejected". It accepts 65 indices, 0 .. 64, for a 64-entry table.
   */
  predicate LayerGuardRejects(index: int): (rejected: bool)
    ensures !rejected <==> 0 <= index <= MAX_LAYERS
  {
    index < 0 || index > MAX_LAYERS
  }

  /**
   * The buffer index check exactly as the C code writes it: true means
   * "rejected". It accepts 4097 indices, -4097 .. -1, for a 4096-entry table.
   */
  predicate BufferGuardRejects(index: int): (rejected: bool)
    ensures !rejected <==> -MAX_BUFFERS - 1 <= index <= -1
  {
    var internal := InternalBufferIndex(index);
    internal < 0 || internal > MAX_BUFFERS
  }

  /**
   * The table entry a layer index addresses, with the bound the layer table
   * calls for (`>=`, where the C code writes `>`): None for a rejected index.
   */
  function LayerSlot(index: int): (slot: Option<int>)
    ensures slot.Some? <==> 0 <= index < MAX_LAYERS
    ensures slot.Some? ==> slot.value == index
  {
    if index < 0 || index >= MAX_LAYERS then None else Some(index)
  }

  /**
   * The table entry a buffer index addresses, with the bound the buffer
   * table calls for (`>=`, where the C code writes `>`): exactly the indices
   * -4096 .. -1 are accepted, each at the entry it names.
   */
  function BufferSlot(index: int): (slot: Option<int>)
    ensures slot.Some? <==> -MAX_BUFFERS <= index <= -1
    ensures slot.Some? ==> 0 <= slot.value < MAX_BUFFERS && InternalBufferIndex(slot.value) == index
  {
    var internal := InternalBufferIndex(index);
    if internal < 0 || internal >= MAX_BUFFERS then None else Some(internal)
  }

  /** The layer check as written lets index 64 through, one past the last entry of the 64-entry table. */
  lemma LayerGuardAdmitsOnePastEnd()
    ensures !LayerGuardRejects(MAX_LAYERS)
    ensures LayerSlot(MAX_LAYERS).None?
  {
  }

  /** The buffer check as written lets index -4097 through, at entry 4096, one past the last entry of the 4096-entry table. */
  lemma BufferGuardAdmitsOnePastEnd()
    ensures !BufferGuardRejects(-MAX_BUFFERS - 1)
    ensures InternalBufferIndex(-MAX_BUFFERS - 1) == MAX_BUFFERS
    ensures BufferSlot(-MAX_BUFFERS - 1).None?
  {
  }

  /** The checks as written and the corrected ones disagree on exactly one index each. */
  lemma GuardsDifferOnlyOnePastEnd(index: int)
    ensures LayerGuardRejects(index) != LayerSlot(index).None? <==> index == MAX_LAYERS
    ensures BufferGuardRejects(index) != BufferSlot(index).None? <==> index == -MAX_BUFFERS - 1
  {
  }

  /** A non-negative index never names a buffer: its internal index is negative. */
  lemma NonNegativeIndexIsNoBuffer(index: int)
    requires index >= 0
    ensures InternalBufferIndex(index) < 0
    ensures BufferGuardRejects(index) && BufferSlot(index).None?
  {
  }

  // ---------------------------------------------------------------------
  // Sync timestamps
  // ---------------------------------------------------------------------

  /**
   * The last sync timestamp after a sync at `timestamp`: kept when the
   * timestamp decreases, replaced otherwise. It is the larger of the two.
   */
  function NextSync(lastSync: int, timestamp: int): (next: int)
    ensures lastSync <= next && timestamp <= next
    ensures next == lastSync || next == timestamp
  {
    if timestamp < lastSync then lastSync else timestamp
  }

  /** The last sync timestamp after the syncs `timestamps`, handled in order, starting from `lastSync`. */
  function SyncAll(lastSync: int, timestamps: seq<int>): int
    decreases |timestamps|
  {
    if timestamps == [] then lastSync
    else NextSync(SyncAll(lastSync, timestamps[..|timestamps| - 1]), timestamps[|timestamps| - 1])
  }

  /**
   * After any sequence of syncs the last sync timestamp is the largest of the
   * starting value and all timestamps seen: no sync ever lowers it.
   */
  lemma {:induction false} SyncAllIsMaximum(lastSync: int, timestamps: seq<int>)
    ensures lastSync <= SyncAll(lastSync, timestamps)
    ensures forall k :: 0 <= k < |timestamps| ==> timestamps[k] <= SyncAll(lastSync, timestamps)
    ensures SyncAll(lastSync, timestamps) == lastSync || SyncAll(lastSync, timestamps) in timestamps
  {
    if timestamps != [] {
      var front := timestamps[..|timestamps| - 1];
      SyncAllIsMaximum(lastSync, front);
      assert forall k :: 0 <= k < |front| ==> timestamps[k] == front[k];
    }
  }

  /** The last sync timestamp never decreases: after a prefix of the syncs it is at most what it is after all of them. */
  lemma {:induction false} SyncAllNeverDecreases(lastSync: int, timestamps: seq<int>, k: nat)
    requires k <= |timestamps|
    ensures SyncAll(lastSync, timestamps[..k]) <= SyncAll(lastSync, timestamps)
    decreases |timestamps| - k
  {
    if k < |timestamps| {
      var front := timestamps[..|timestamps| - 1];
      assert timestamps[..k] == front[..k];
      SyncAllNeverDecreases(lastSync, front, k);
    } else {
      assert timestamps[..k] == timestamps;
    }
  }

  // ---------------------------------------------------------------------
  // The objects the tables hold
  // ---------------------------------------------------------------------

  /** A layer; the display relies only on the buffer it draws into. */
  class Layer {
    const buffer: Buffer

    /** A new layer owns a new, empty buffer. */
    constructor ()
      ensures fresh(buffer) && buffer.Shape() == EMPTY
    {
      buffer := new Buffer();
    }

    /** Allocation of a layer; `succeeds` stands for whether memory could be obtained. */
    static method Alloc(succeeds: bool) returns (layer: Layer?)
      ensures layer != null <==> succeeds
      ensures layer != null ==> fresh(layer) && fresh(layer.buffer) && layer.buffer.Shape() == EMPTY
    {
      if succeeds {
        layer := new Layer();
      } else {
        layer := null;
      }
    }
  }

  /** An image stream; its decoding state is not part of this model. */
  class ImageStream {
  }

  // ---------------------------------------------------------------------
  // The display
  // ---------------------------------------------------------------------

  class Display {
    /** Buffer table: the buffer with protocol index i < 0 sits at entry -i - 1; null when absent or disposed. */
    const buffers: array<Buffer?>
    /** Layer table: the layer with index i >= 0 sits at entry i; null when absent or disposed. */
    const layers: array<Layer?>
    /** Image-stream table, indexed by stream number; null when absent or ended. */
    const streams: array<ImageStream?>
    /** Timestamp of the last sync handled, 0 before the first. */
    var lastSync: int

    /**
     * The tables have their fixed capacities, no object sits in two entries
     * of its table, no two layers share an underlying buffer, and no layer's
     * buffer is also an off-screen buffer.
     */
    ghost predicate Valid()
      reads buffers, layers, streams
    {
      && buffers.Length == MAX_BUFFERS
      && layers.Length == MAX_LAYERS
      && streams.Length == MAX_STREAMS
      && (forall i, j :: 0 <= i < j < MAX_BUFFERS && buffers[i] != null ==> buffers[i] != buffers[j])
      && (forall i, j :: 0 <= i < j < MAX_LAYERS && layers[i] != null && layers[j] != null ==>
            layers[i] != layers[j] && layers[i].buffer != layers[j].buffer)
      && (forall i, k :: 0 <= i < MAX_LAYERS && 0 <= k < MAX_BUFFERS && layers[i] != null ==>
            layers[i].buffer != buffers[k])
      && (forall i, j :: 0 <= i < j < MAX_STREAMS && streams[i] != null ==> streams[i] != streams[j])
    }

    /** Every entry of every table is null. */
    ghost predicate IsEmpty()
      reads buffers, layers, streams
    {
      && (forall i :: 0 <= i < buffers.Length ==> buffers[i] == null)
      && (forall i :: 0 <= i < layers.Length ==> layers[i] == null)
      && (forall i :: 0 <= i < streams.Length ==> streams[i] == null)
    }

    /** A zero-filled display: every entry null, no sync yet. */
    constructor ()
      ensures Valid() && IsEmpty() && lastSync == 0
      ensures fresh(buffers) && fresh(layers) && fresh(streams)
    {
      buffers := new Buffer?[MAX_BUFFERS](_ => null);
      layers := new Layer?[MAX_LAYERS](_ => null);
      streams := new ImageStream?[MAX_STREAMS](_ => null);
      lastSync := 0;
    }

    /** Allocation of a display; `succeeds` stands for whether memory could be obtained. */
    static method Alloc(succeeds: bool) returns (display: Display?)
      ensures display != null <==> succeeds
      ensures display != null ==> && fresh(display) && fresh(display.buffers) && fresh(display.layers)
                                  && fresh(display.streams) && display.Valid() && display.IsEmpty()
                                  && display.lastSync == 0
    {
      if succeeds {
        display := new Display();
      } else {
        display := null;
      }
    }

    /**
     * Handles a sync at `timestamp`: a decreasing timestamp is refused with
     * status 1 and nothing changes; otherwise (equal included) it becomes the
     * last sync timestamp and the status is 0.
     */
    method Sync(timestamp: int) returns (status: int)
      modifies this`lastSync
      ensures status == 1 <==> timestamp < old(lastSync)
      ensures status == 0 <==> old(lastSync) <= timestamp
      ensures lastSync == NextSync(old(lastSync), timestamp)
      ensures status == 1 ==> lastSync == old(lastSync)
      ensures status == 0 ==> lastSync == timestamp
    {
      if timestamp < lastSync {
        return 1;
      }
      lastSync := timestamp;
      status := 0;
    }

    /**
     * The layer with index `index`, allocated and stored on first use. Null
     * only for an index outside 0 .. 63 or when the allocation fails
     * (`allocSucceeds` false); in those cases no entry changes. Otherwise
     * the existing layer, or a new one stored in its entry.
     */
    method GetLayer(index: int, allocSucceeds: bool) returns (layer: Layer?)
      requires Valid()
      modifies layers
      ensures Valid()
      ensures layer != null <==> LayerSlot(index).Some? && (old(layers[index]) != null || allocSucceeds)
      ensures layer == null ==> layers[..] == old(layers[..])
      ensures layer != null ==> layers[..] == old(layers[..])[index := layer]
      ensures LayerSlot(index).Some? && old(layers[index]) != null ==> layer == old(layers[index])
      ensures LayerSlot(index).Some? && old(layers[index]) == null && layer != null ==>
                fresh(layer) && fresh(layer.buffer) && layer.buffer.Shape() == EMPTY
    {
      var slot := LayerSlot(index);
      if slot.None? {
        return null;
      }
      layer := layers[slot.value];
      if layer == null {
        layer := Layer.Alloc(allocSucceeds);
        if layer == null {
          return null;
        }
        layers[slot.value] := layer;
      }
    }

    /**
     * Frees the layer with index `index`: 1 and no change for an index
     * outside 0 .. 63; otherwise that entry becomes null (whether or not it
     * held a layer), every other entry is kept, and the status is 0.
     */
    method FreeLayer(index: int) returns (status: int)
      requires Valid()
      modifies layers
      ensures Valid()
      ensures status == 0 <==> LayerSlot(index).Some?
      ensures status != 0 ==> status == 1 && layers[..] == old(layers[..])
      ensures status == 0 ==> layers[..] == old(layers[..])[index := null]
    {
      var slot := LayerSlot(index);
      if slot.None? {
        return 1;
      }
      layers[slot.value] := null;
      status := 0;
    }

    /**
     * The buffer with (negative) index `index`, allocated and stored on first
     * use at entry -index - 1. Null only for an index outside -4096 .. -1 or
     * when the allocation fails; in those cases no entry changes.
     */
    method GetBuffer(index: int, allocSucceeds: bool) returns (buffer: Buffer?)
      requires Valid()
      modifies buffers
      ensures Valid()
      ensures buffer != null <==>
                BufferSlot(index).Some? && (old(buffers[BufferSlot(index).value]) != null || allocSucceeds)
      ensures buffer == null ==> buffers[..] == old(buffers[..])
      ensures buffer != null ==> buffers[..] == old(buffers[..])[InternalBufferIndex(index) := buffer]
      ensures BufferSlot(index).Some? && old(buffers[BufferSlot(index).value]) != null ==>
                buffer == old(buffers[BufferSlot(index).value])
      ensures BufferSlot(index).Some? && old(buffers[BufferSlot(index).value]) == null && buffer != null ==>
                fresh(buffer) && buffer.Shape() == EMPTY
    {
      var slot := BufferSlot(index);
      if slot.None? {
        return null;
      }
      buffer := buffers[slot.value];
      if buffer == null {
        buffer := Buffer.Alloc(allocSucceeds);
        if buffer == null {
          return null;
        }
        buffers[slot.value] := buffer;
      }
    }

    /**
     * Frees the buffer with (negative) index `index`: 1 and no change for an
     * index outside -4096 .. -1; otherwise entry -index - 1 becomes null,
     * every other entry is kept, and the status is 0.
     */
    method FreeBuffer(index: int) returns (status: int)
      requires Valid()
      modifies buffers
      ensures Valid()
      ensures status == 0 <==> BufferSlot(index).Some?
      ensures status != 0 ==> status == 1 && buffers[..] == old(buffers[..])
      ensures status == 0 ==> buffers[..] == old(buffers[..])[InternalBufferIndex(index) := null]
    {
      var slot := BufferSlot(index);
      if slot.None? {
        return 1;
      }
      buffers[slot.value] := null;
      status := 0;
    }

    /**
     * The buffer behind protocol index `index`: for index >= 0 the buffer
     * of the layer GetLayer yields (null when that is null), for index < 0
     * the buffer GetBuffer yields. Only the table the sign selects changes.
     */
    method GetRelatedBuffer(index: int, allocSucceeds: bool) returns (buffer: Buffer?)
      requires Valid()
      modifies layers, buffers
      ensures Valid()
      ensures index >= 0 ==> buffers[..] == old(buffers[..])
      ensures index >= 0 ==>
                (buffer != null <==> LayerSlot(index).Some? && (old(layers[index]) != null || allocSucceeds))
      ensures index >= 0 && buffer == null ==> layers[..] == old(layers[..])
      ensures index >= 0 && buffer != null ==>
                layers[index] != null && buffer == layers[index].buffer
                && layers[..] == old(layers[..])[index := layers[index]]
                && (old(layers[index]) != null ==> layers[index] == old(layers[index]))
      ensures index >= 0 && buffer != null && old(layers[index]) == null ==>
                fresh(layers[index]) && fresh(buffer) && buffer.Shape() == EMPTY
      ensures index < 0 ==> layers[..] == old(layers[..])
      ensures index < 0 ==>
                (buffer != null <==> BufferSlot(index).Some? && (old(buffers[BufferSlot(index).value]) != null || allocSucceeds))
      ensures index < 0 && buffer == null ==> buffers[..] == old(buffers[..])
      ensures index < 0 && buffer != null ==>
                buffers[..] == old(buffers[..])[InternalBufferIndex(index) := buffer]
                && (old(buffers[BufferSlot(index).value]) != null ==> buffer == old(buffers[BufferSlot(index).value]))
      ensures index < 0 && buffer != null && old(buffers[BufferSlot(index).value]) == null ==>
                fresh(buffer) && buffer.Shape() == EMPTY
    {
      if index >= 0 {
        var layer := GetLayer(index, allocSucceeds);
        if layer == null {
          return null;
        }
        return layer.buffer;
      }
      buffer := GetBuffer(index, allocSucceeds);
    }

    /**
     * Teardown: every entry of every table is released, and the status is 0;
     * a null display is left alone. The sync timestamp is untouched.
     */
    static method Free(display: Display?) returns (status: int)
      requires display != null ==> display.Valid()
      modifies if display == null then {} else {display.buffers as object, display.layers as object, display.streams as object}
      ensures status == 0
      ensures display != null ==> display.Valid() && display.IsEmpty()
    {
      if display == null {
        return 0;
      }
      for i := 0 to MAX_BUFFERS
        invariant forall k :: 0 <= k < i ==> display.buffers[k] == null
      {
        display.buffers[i] := null;
      }
      for i := 0 to MAX_LAYERS
        invariant forall k :: 0 <= k < i ==> display.layers[k] == null
        invariant forall k :: 0 <= k < MAX_BUFFERS ==> display.buffers[k] == null
      {
        display.layers[i] := null;
      }
      for i := 0 to MAX_STREAMS
        invariant forall k :: 0 <= k < i ==> display.streams[k] == null
        invariant forall k :: 0 <= k < MAX_BUFFERS ==> display.buffers[k] == null
        invariant forall k :: 0 <= k < MAX_LAYERS ==> display.layers[k] == null
      {
        display.streams[i] := null;
      }
      status := 0;
    }
  }

  /**
   * Two lookups of the same layer index with no free in between yield the
   * same layer, whatever the second allocation would have done.
   */
  method GetLayerTwice(display: Display, index: int, firstAlloc: bool, secondAlloc: bool)
    returns (first: Layer?, second: Layer?)
    requires display.Valid()
    modifies display.layers
    ensures display.Valid()
    ensures first != null ==> second == first
    ensures first != null ==> 0 <= index < MAX_LAYERS && display.layers[..] == old(display.layers[..])[index := first]
  {
    first := display.GetLayer(index, firstAlloc);
    second := display.GetLayer(index, secondAlloc);
  }
}
