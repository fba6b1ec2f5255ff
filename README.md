# Guacamole video encoder display: a Dafny model

This project models the display state of the Guacamole video encoder
(`guacenc`). That state is three fixed-capacity slot tables and a sync
timestamp:

- 4096 off-screen buffers, addressed by negative protocol indices (-1 is entry 0);
- 64 layers, addressed by non-negative indices;
- 64 image streams;
- the timestamp of the last `sync` instruction.

The model covers the operations that fetch-or-create, free and resolve
those objects, the handling of `sync`, teardown, the translation of
compositing modes into Cairo operators, and the buffer size record with its
documented resize contract.

Files:

- `option.dfy`: module `Wrappers`, the `Option` type.
- `buffer.dfy`: module `GuacBuffer`. The `Buffer` class holds width, height and stride. `Resized` is its value-level specification.
- `composite.dfy`: module `Composite`. Channel masks and Cairo operators as datatypes, and the translation between them.
- `display.dfy`: module `GuacDisplay`. Capacities, the index space (as written and corrected), the sync specification, opaque `Layer`/`ImageStream` classes and the `Display` class.

The `Display` class keeps the C struct's shape: `buffers`, `layers` and
`streams` are arrays of nullable references, and `lastSync` is a field that
`Sync` updates in place. `Display.Valid()` fixes the three capacities. It
also says that no object sits in two entries of its table, that no two
layers share an underlying buffer, and that no layer's buffer is also an
off-screen buffer. Every table operation preserves it.

Allocation failure comes from the caller as a boolean (`allocSucceeds`,
`succeeds`), so both branches of every get-or-create are verified.

Points where the model follows the code closely:

- The timestamp starts at 0 (src/guacenc/display.h:81-85; the display is zero-filled at src/guacenc/display.c:230-232).
- `sync` only checks and stores the timestamp. The frame flush is a stub (src/guacenc/display.c:44).
- Teardown returns 0 and finalises no encoder (src/guacenc/display.c:254-255). This is so although src/guacenc/display.h:117-118 says it finishes the encoding.
- The checks as written (`>`) are the predicates `LayerGuardRejects` and `BufferGuardRejects`. The table methods use the corrected `>=` through `LayerSlot` and `BufferSlot` (see Findings).

## Model

| member | source | states |
|---|---|---|
| `GuacBuffer.Buffer.constructor` | src/guacenc/buffer.h:32-49 | a buffer is exactly a width, height and stride record (its initial values are a modelling choice, see Left out) |
| `GuacBuffer.Buffer.Alloc` | src/guacenc/buffer.h:51-60 | allocation yields a fresh buffer, so it belongs to no display, or null exactly when allocation fails |
| `GuacBuffer.Resized` | src/guacenc/buffer.h:71-88 | status 0 exactly on success; then width and height are the requested ones and the stride is the row size of the new width; on error the record is unchanged |
| `GuacBuffer.Buffer.Resize` | src/guacenc/buffer.h:71-88 | the in-place resize leaves the record and status that `Resized` gives for the old record |
| `GuacBuffer.ResizeRoundTrip` | src/guacenc/buffer.h:71-88 | resizing away and back restores a well-formed record exactly |
| `GuacBuffer.ResizeIdempotent` | src/guacenc/buffer.h:71-88 | resizing twice to the same size equals resizing once |
| `Composite.ToCairoOperator` | src/guacenc/display.c:173-228 | exactly the four reversed masks get a DEST_ operator; an unrecognised mask gets OVER; CLEAR and DEST are never produced |
| `Composite.ModeOfInvertsTranslation` | src/guacenc/display.c:176-221 | every recognised mask is recovered from its operator by the inverse `ModeOf`, and conversely |
| `Composite.TranslationInjective` | src/guacenc/display.c:176-221 | two recognised masks with the same operator are the same mask, so the 11 masks give 11 distinct operators |
| `Composite.ReverseSwapsOperands` | src/guacenc/display.c:182-212 | the operator of a reversed mask is the forward operator with source and destination exchanged (ROVER/RIN/ROUT/RATOP to DEST_OVER/DEST_IN/DEST_OUT/DEST_ATOP) |
| `GuacDisplay.InternalBufferIndex` | src/guacenc/display.c:101-102 | the internal index `-index - 1` is non-negative exactly for negative indices |
| `GuacDisplay.InternalBufferIndexSelfInverse` | src/guacenc/display.h:57-63 | the transform is its own inverse, so the entry and the protocol index determine each other |
| `GuacDisplay.InternalBufferIndexInjective` | src/guacenc/display.c:133-134 | no two buffer indices share a table entry |
| `GuacDisplay.InternalBufferIndexOnto` | src/guacenc/display.h:57-63 | every entry 0 .. 4095 is the entry of one index in -4096 .. -1 (-1 is entry 0) |
| `GuacDisplay.NonNegativeIndexIsNoBuffer` | src/guacenc/display.c:101-108 | a non-negative index gives a negative internal index and is rejected by both the written and the corrected buffer checks |
| `GuacDisplay.LayerGuardRejects` | src/guacenc/display.c:82-86 | the layer check as written accepts exactly the 65 indices 0 .. 64, one more than the table holds |
| `GuacDisplay.BufferGuardRejects` | src/guacenc/display.c:133-140 | the buffer check as written accepts exactly the 4097 indices -4097 .. -1, one more than the table holds |
| `GuacDisplay.LayerSlot` | src/guacenc/display.c:53-57 | corrected layer check: an index is accepted exactly when 0 <= index < 64, at its own entry |
| `GuacDisplay.BufferSlot` | src/guacenc/display.c:104-108 | corrected buffer check: an index is accepted exactly when -4096 <= index <= -1, at the entry `-index - 1` |
| `GuacDisplay.LayerGuardAdmitsOnePastEnd` | src/guacenc/display.c:82-86 | the layer check as written does not reject index 64, which the corrected check rejects |
| `GuacDisplay.BufferGuardAdmitsOnePastEnd` | src/guacenc/display.c:136-140 | the buffer check as written does not reject index -4097, whose internal index is 4096, which the corrected check rejects |
| `GuacDisplay.GuardsDifferOnlyOnePastEnd` | src/guacenc/display.c:53-140 | the written and corrected checks (layers at lines 54 and 83, buffers at lines 105 and 137) disagree on index 64 (layers) and -4097 (buffers) and nowhere else |
| `GuacDisplay.NextSync` | src/guacenc/display.c:35-42 | one sync leaves the larger of the previous timestamp and the new one, which is one of the two |
| `GuacDisplay.SyncAllIsMaximum` | src/guacenc/display.c:35-42 | after any sequence of syncs the last sync timestamp is the largest of its start value and the timestamps seen, and it is one of them |
| `GuacDisplay.SyncAllNeverDecreases` | src/guacenc/display.h:81-85 | the last sync timestamp after a prefix of a sync sequence is at most the one after the whole sequence |
| `GuacDisplay.Layer.Alloc` | src/guacenc/display.c:63-68 | layer allocation yields a fresh layer with a fresh empty buffer, or null exactly when it fails |
| `GuacDisplay.Display.constructor` | src/guacenc/display.h:55-87 | the tables have capacities 4096, 64 and 64, every entry is null, and the last sync timestamp is 0 |
| `GuacDisplay.Display.Alloc` | src/guacenc/display.c:230-232 | a zero-filled display, or null exactly when allocation fails |
| `GuacDisplay.Display.Sync` | src/guacenc/display.c:33-48 | a decreasing timestamp returns 1 and keeps `lastSync`; otherwise (equality included) it returns 0 and `lastSync` becomes the timestamp |
| `GuacDisplay.Display.GetLayer` | src/guacenc/display.c:50-77 | null exactly for a rejected index or a failed allocation, with no entry changed; otherwise the stored layer, or a fresh one stored in that entry alone |
| `GuacDisplay.Display.FreeLayer` | src/guacenc/display.c:79-96 | 1 and no change for a rejected index; otherwise 0, that entry null (also when it was already null), all others kept |
| `GuacDisplay.Display.GetBuffer` | src/guacenc/display.c:98-128 | as GetLayer, over entry `-index - 1` of the buffer table |
| `GuacDisplay.Display.FreeBuffer` | src/guacenc/display.c:130-150 | as FreeLayer, over entry `-index - 1` of the buffer table |
| `GuacDisplay.Display.GetRelatedBuffer` | src/guacenc/display.c:152-171 | index >= 0: null when the layer lookup fails, else the buffer of the stored layer, a fresh layer with a fresh 0 x 0 buffer when the entry was empty; index < 0: the GetBuffer result, fresh and 0 x 0 when the entry was empty; the other table is untouched |
| `GuacDisplay.Display.Free` | src/guacenc/display.c:234-257 | returns 0; a null display is left alone, otherwise every entry of all three tables is released |
| `GuacDisplay.GetLayerTwice` | src/guacenc/display.h:129-143 | two lookups of one layer index with no free in between return the same layer |

## Findings

| source | as written | input that shows it | evidently intended | confidence | as-written member | corrected member |
|---|---|---|---|---|---|---|
| src/guacenc/display.c:54 | `index < 0 \|\| index > GUACENC_DISPLAY_MAX_LAYERS` (also at line 83) | layer index 64: accepted, then `layers[64]` is read or written, one past the 64-entry array | `index >= GUACENC_DISPLAY_MAX_LAYERS` | high (not executed) | `GuacDisplay.LayerGuardAdmitsOnePastEnd` | `GuacDisplay.LayerSlot` |
| src/guacenc/display.c:105 | `internal_index < 0 \|\| internal_index > GUACENC_DISPLAY_MAX_BUFFERS` (also at line 137) | buffer index -4097: internal index 4096 is accepted, then `buffers[4096]` is read or written, one past the 4096-entry array | `internal_index >= GUACENC_DISPLAY_MAX_BUFFERS` | high (not executed) | `GuacDisplay.BufferGuardAdmitsOnePastEnd` | `GuacDisplay.BufferSlot` |

The checks as written are the predicates `LayerGuardRejects` and
`BufferGuardRejects`. The four table methods (`GetLayer`, `FreeLayer`,
`GetBuffer`, `FreeBuffer`) use the corrected checks `LayerSlot` and
`BufferSlot`. This is a deliberate deviation. Index 64 and index -4097 are
rejected in the model (null or status 1, nothing changed), where the C code
goes out of bounds.

## Left out

- Frame output: the sync handler's flush is a stub (src/guacenc/display.c:44). Layer composition, ordering, opacity and frame durations are not modelled.
- Pixel content and blending: operators are tags only. Porter-Duff arithmetic belongs to Cairo.
- Pixel storage and its preservation across a resize are not modelled, because buffer.c is not part of this model. Only the width/height/stride record is modelled.
- GuacBuffer.Buffer.Alloc / GuacDisplay.Layer.Alloc: a new buffer, and the buffer inside a new layer, is taken to be 0 x 0 with stride 0, and GetLayer, GetBuffer and GetRelatedBuffer pass this on. buffer.h:51-60 says only that the buffer is initialised, and layer allocation (layer.h) is not part of this model.
- GuacBuffer.Resized: the stride after a successful resize is taken as 4 bytes per pixel times the width (32-bit ARGB). buffer.h says only that the stride is updated.
- GuacBuffer.Buffer.Resize: a failed resize is modelled as leaving the record unchanged. buffer.h says only that a non-zero status means an error.
- Memory release: `guacenc_layer_free`, `guacenc_buffer_free` (including its no-op on NULL), `free` and `calloc` are not modelled. Freeing an entry sets it to null, and teardown sets every entry to null. The display object itself stays, and its timestamp is untouched.
- Encoder finalisation at teardown: the code does none, and the model does none.
- Image streams: only their table is modelled (initially empty, cleared at teardown). image-stream.h is not part of this model, and no stream lookup appears in display.c.
- Layer attributes other than its buffer: layer.h is not part of this model.
- Logging through `guacenc_log`: left out as I/O.
- C integer widths: indices and timestamps are unbounded integers. The overflow of `-index - 1` at `INT_MIN` and the 64-bit range of `guac_timestamp` are not modelled.
- The telnet handler prototypes (src/protocols/telnet/guac_handlers.h): I/O glue with no logic.
