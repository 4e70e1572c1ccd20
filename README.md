# ferrumc core in Dafny

This project models three parts of the ferrumc Minecraft server.

- **The component registry of the async ECS.** `ComponentStorage` maps a
  component type's identity to a sparse set from entity id to the boxed
  component. It has `new`, `insert`, `get`, `get_mut` and `remove`. The read
  and write guards dereference to the stored cell through an unchecked cast.
  In the model the registry is a class over
  `map<TypeTag, map<EntityId, Component>>`, where a component value carries
  its own type tag. Its object invariant is the fact those casts rely on:
  every value stored under type `T` has type `T`. The guards are classes that
  read or write the live cell.
- **The synchronous `NetEncode` implementations for primitives.** These are
  the integer pairs `u8|i8` … `u128|i128`, `bool`, `String` and `&str`. A
  `Writer` class holds the bytes written so far and a count of `write_all`
  calls. Which calls fail, and after how many bytes, is given to it up front.
  Each encoder is a method stated against byte functions (`ToBeBytes`,
  `TwosComplement`, `Utf8`), and lemmas prove the round trips and the sign
  byte.
- **The pure and list logic of the world importer.**
  - `format_duration` is proved to print canonical fields that read back
    unambiguously and add up to the elapsed seconds.
  - The selection rule of `get_batch_size`: the first `--batch_size=` flag,
    the text after its last `=`, an `i32` parse, and 150 as the fallback.
  - The `while !chunks.is_empty()` drain loop, proved to yield
    `Batches(chunks, n)`: consecutive batches that reproduce the region.

Files:
- `wrappers.dfy`: `Option` and `Min`.
- `decimal.dfy`: decimal printing (`Show`) of a number, the same digits Rust's
  `{}` prints, and parsing it back.
- `component.dfy`, `codec.dfy`, `importing.dfy`: the three parts above.

## Model

| member | source | states |
|---|---|---|
| Component.WellTyped | src/crates/async_ecs/src/component.rs:69-73 | The type-tag invariant: every value stored under a type's key has that type, which the unchecked casts at lines 35, 42 and 47 rely on; `Inserted`, `Removed` and every registry method preserve it |
| Component.ComponentStorage.Valid | src/crates/async_ecs/src/component.rs:55-58 | The registry's object invariant is `WellTyped` of its storages; the constructor establishes it and `Insert`, `Remove` and `Assign` keep it |
| Component.Lookup | src/crates/async_ecs/src/component.rs:80-81 | A lookup finds a value exactly when the type has a storage and the entity has a slot in it; a value found in a well-typed registry has the requested type |
| Component.Inserted | src/crates/async_ecs/src/component.rs:68-74 | After insert the type keys are the old ones plus T's, `(T, e)` holds `c`, every other (type, entity) cell is unchanged, and well-typedness is preserved |
| Component.Removed | src/crates/async_ecs/src/component.rs:115-123 | Remove is a no-op when T has no storage; otherwise the type keys are unchanged, `(T, e)` is empty, every other cell is unchanged, and well-typedness is preserved |
| Component.RemoveIdempotent | src/crates/async_ecs/src/component.rs:115-123 | Removing the same entry twice is the same as removing it once |
| Component.ComponentStorage.constructor | src/crates/async_ecs/src/component.rs:62-66 | `new` starts with no type storages and satisfies the type-tag invariant |
| Component.ComponentStorage.Insert | src/crates/async_ecs/src/component.rs:68-74 | Insert keeps the type-tag invariant, and the new registry is `Inserted(old, e, c)`: T's storage is created only if absent and any existing one keeps its other entries |
| Component.ComponentStorage.Get | src/crates/async_ecs/src/component.rs:75-94 | `get` returns a guard exactly when the storage and the slot exist; the guard is on `(T, e)` of this registry and dereferences to the stored value; nothing changes |
| Component.ComponentStorage.GetMut | src/crates/async_ecs/src/component.rs:96-113 | As `get`, with a write guard; nothing changes until the guard is written through |
| Component.ComponentStorage.Remove | src/crates/async_ecs/src/component.rs:115-123 | Remove keeps the type-tag invariant and the new registry is `Removed(old, T, e)` |
| Component.ComponentRef.Deref | src/crates/async_ecs/src/component.rs:31-37 | The read guard yields the cell's current value, which has the guard's type, so the unchecked cast is sound |
| Component.ComponentRefMut.Deref | src/crates/async_ecs/src/component.rs:38-44 | The write guard yields the cell's current value, which has the guard's type |
| Component.ComponentRefMut.Assign | src/crates/async_ecs/src/component.rs:45-49 | Writing through the guard replaces the value in the stored cell itself, only that cell changes, the type keys stay the same, and the invariant holds |
| Component.GuardAfterRemove | src/crates/async_ecs/src/component.rs:85-88 | A read guard taken before `remove` of its entity refers to a cell the registry no longer holds, so its `deref` has no defined value |
| Component.InsertThenGet | src/crates/async_ecs/src/component.rs:155-162 | On a fresh registry, `get` after `insert` returns `Some` holding the inserted value |
| Component.InsertThenGetMut | src/crates/async_ecs/src/component.rs:164-171 | On a fresh registry, `get_mut` after `insert` returns `Some` holding the inserted value |
| Component.WriteThenRead | src/crates/async_ecs/src/component.rs:45-49 | A value written through a `get_mut` guard is what a later `get` returns, and the type keys are unchanged |
| Component.RemoveScenario | src/crates/async_ecs/src/component.rs:115-123 | After remove the entity is absent while another entity of the same type keeps its value; a second remove is harmless; re-inserting makes the value visible again |
| Codec.ToBeBytes | src/lib/net/crates/codec/src/encode/primitives.rs:11 | `to_be_bytes` of a value of N bytes is exactly N bytes; with `ToBeBytesAt` and the round-trip lemmas, they are its base-256 digits, most significant first |
| Codec.FromToBeBytes | src/lib/net/crates/codec/src/encode/primitives.rs:9-12 | Reading the written bytes of an unsigned value back as a big-endian number gives the value |
| Codec.ToFromBeBytes | src/lib/net/crates/codec/src/encode/primitives.rs:9-12 | Every n-byte string is the big-endian encoding of the number it denotes, so every n-byte string is some value's encoding |
| Codec.ToBeBytesAt | src/lib/net/crates/codec/src/encode/primitives.rs:11 | Byte i of the n-byte encoding is base-256 digit n-1-i of the value: most significant byte first |
| Codec.TwosComplement | src/lib/net/crates/codec/src/encode/primitives.rs:21-26 | `x as uN` is x itself for x >= 0 and x + 256^n for negative x, and fits in n bytes |
| Codec.FromTwosComplement | src/lib/net/crates/codec/src/encode/primitives.rs:21-26 | `u as iN` lies in iN's range and is non-negative exactly when u is at most iN's maximum |
| Codec.SignedRoundTrip | src/lib/net/crates/codec/src/encode/primitives.rs:25 | The reinterpretation of a signed value as unsigned loses nothing |
| Codec.SignedBytesRoundTrip | src/lib/net/crates/codec/src/encode/primitives.rs:21-26 | Decoding a signed integer's bytes (big-endian, then `as iN`) gives the integer back |
| Codec.SignBit | src/lib/net/crates/codec/src/encode/primitives.rs:21-26 | The first byte of a signed integer's encoding has its top bit set exactly when the integer is negative |
| Codec.Utf8 | src/lib/net/crates/codec/src/encode/primitives.rs:70 | `as_bytes` of a string has between one and four bytes per character |
| Codec.Utf8Char | src/lib/net/crates/codec/src/encode/primitives.rs:70 | A character takes one to four UTF-8 bytes, and exactly one when it is ASCII |
| Codec.Utf8Length | src/lib/net/crates/codec/src/encode/primitives.rs:68 | The byte length of a string is at least its character count, with equality exactly when every character is ASCII |
| Codec.LenAsI32 | src/lib/net/crates/codec/src/encode/primitives.rs:68 | `len as i32` is the length itself when it fits in i32, and is always an i32 congruent to the length modulo 2^32: its low 32 bits |
| Codec.Writer.WriteAll | src/lib/net/crates/codec/src/encode/primitives.rs:11 | One `write_all` appends all the bytes and returns Ok, or appends only the bytes the sink accepted and returns an error; earlier contents are never altered |
| Codec.EncodeUnsigned | src/lib/net/crates/codec/src/encode/primitives.rs:9-12 | An unsigned integer of N bytes is written as exactly its N big-endian bytes in one `write_all`, whatever the options |
| Codec.EncodeSigned | src/lib/net/crates/codec/src/encode/primitives.rs:21-26 | A signed integer is written as the bytes of its two's complement reinterpretation as the unsigned type of the same width |
| Codec.EncodeBool | src/lib/net/crates/codec/src/encode/primitives.rs:46-49 | `true` is written as the single byte 1 and `false` as the single byte 0 |
| Codec.EncodeVarInt | src/lib/net/crates/codec/src/encode/primitives.rs:68-69 | The length prefix is written as the VarInt bytes of the i32 value in one `write_all` |
| Codec.EncodeStr | src/lib/net/crates/codec/src/encode/primitives.rs:66-72 | A `&str` is written as the VarInt of its byte length cast to i32, then its UTF-8 bytes; if the prefix fails, no string byte is written and the error is returned |
| Codec.EncodeString | src/lib/net/crates/codec/src/encode/primitives.rs:56-59 | A `String` is written exactly as its `&str` view |
| Decimal.Show | src/world/importing.rs:44-52 | `{}` prints at least one decimal digit, only digits, and no leading zero except for 0 itself |
| Decimal.ValueOfShow | src/world/importing.rs:44-52 | The decimal digits printed for a number read back as that number |
| Importing.FormatDuration | src/world/importing.rs:40-53 | The printed duration always ends in `s`, and ends in `ms` exactly when it is under one minute; `FormatDurationRenders` and `FormatDurationMeaning` give its exact fields and their meaning |
| Importing.SubsecMillis | src/world/importing.rs:42 | The sub-second milliseconds are below 1000 |
| Importing.ReadRender | src/world/importing.rs:44-52 | Fields printed as `<value><unit>` joined by spaces read back as exactly those fields, so the printed form is unambiguous |
| Importing.FormatDurationRenders | src/world/importing.rs:40-53 | Each branch of `format_duration` prints exactly the fields of its case: ms; s and ms; m and s; h, m and s |
| Importing.DurationFieldsSum | src/world/importing.rs:44-52 | The fields are in strictly decreasing units; each field after the first is below its bound (m < 60, s < 60); the milliseconds are below 1000; a leading field other than milliseconds is non-zero; and h*3600 + m*60 + s is the whole seconds |
| Importing.FormatDurationMeaning | src/world/importing.rs:40-53 | The printed duration reads back as canonical fields adding up to the whole seconds; milliseconds are the last field exactly below one minute and are dropped from one minute on |
| Importing.FindFlag | src/world/importing.rs:19-20 | Only the first argument starting with `--batch_size=` is taken, and none exactly when no argument starts with it |
| Importing.LastSegment | src/world/importing.rs:22-23 | The text after the last `=` is a suffix of the argument with no `=` in it, preceded by `=` when it is not the whole argument |
| Importing.ParseI32 | src/world/importing.rs:24 | A parse succeeds only with a value in i32's range |
| Importing.ParseShowI32 | src/world/importing.rs:24 | Every i32 written in decimal, with a minus sign when negative, parses back to itself |
| Importing.GetBatchSize | src/world/importing.rs:18-38 | The batch size is always an i32 |
| Importing.BatchSizeDefault | src/world/importing.rs:32-36 | Without a `--batch_size=` argument the batch size is 150 |
| Importing.BatchSizeUnparsable | src/world/importing.rs:21-36 | When the first flag's last segment does not parse as i32, the batch size is 150 |
| Importing.BatchSizeFromFlag | src/world/importing.rs:18-31 | With `--batch_size=<n>` as the first flag, for any i32 `n`, the batch size is `n`, whatever later flags say |
| Importing.AsUsize | src/world/importing.rs:105 | `as usize` keeps a non-negative i32, and in general gives the one value below 2^64 congruent to the i32 modulo 2^64, which is at least 2^64 - 2^31 for a negative one |
| Importing.DrainOnce | src/world/importing.rs:122 | One pass takes `min(batch_size, len)` chunks off the front: batch plus remainder is the old list |
| Importing.Batches | src/world/importing.rs:120-122 | For a batch size of at least 1, the batches concatenate to the chunks in order; each has 1 to batch_size chunks; all but the last are full |
| Importing.DrainBatches | src/world/importing.rs:121-122 | The drain loop terminates for a batch size of at least 1 and processes exactly `Batches(chunks, batch_size)` |
| Importing.WholeRegionOneBatch | src/world/importing.rs:122 | A batch size of at least the region's length takes the whole region as one batch |
| Importing.NegativeBatchSizeOneBatch | src/world/importing.rs:105 | A negative i32 batch size cast to `usize` (near 2^64) takes each region of realistic size as one batch |
| Importing.ZeroBatchSizeNeverDrains | src/world/importing.rs:105 | `--batch_size=0` gives a batch size of 0, and a pass with 0 drains nothing from a non-empty region |
| Importing.ImportBatchSize | src/world/importing.rs:105 | The corrected batch size is at least 1: the chosen one when it is at least 1, else 150 |
| Importing.ImportRegion | src/world/importing.rs:118-122 | With the corrected batch size `ImportBatchSize`, the loop processes exactly `Batches(chunks, n)`: each pass takes `min(n, remaining)` chunks from the front, so every chunk is processed once, in order, in non-empty batches of at most n |

## Left out

- Locks, `async`/`.await` and `DashMap` concurrency are not modelled. A read guard is a read of the stored cell and a write guard is a write into it. Contention and deadlock are outside the model.
- The `transmute` lifetime extension and the raw-pointer casts are not modelled. Their logical precondition, the type-tag invariant `Valid`, is.
- Component.ComponentRef.Deref: requires the guarded cell to still be in the registry. That is the condition under which the source's `deref` is defined at all, and the source does not enforce it: the `transmute` cuts the guard loose from the map borrow, so `remove` can drop the lock while a guard is live and a later `deref` reads freed memory. The model does not represent such a dangling guard; `GuardAfterRemove` shows the cell gone.
- `SparseSet` internals are not part of this model. Each per-type store is a map from entity id to value.
- The `f32` fields of `Position` and `Velocity` are integers here. Other component types are one `User` constructor with an identity and an integer payload.
- The `f32 | f64` encoding and the f64-to-f32 narrowing are left out because they are floating point.
- The `encode_async` variants are left out. They write the same bytes through an async writer.
- Codec.EncodeVarInt: the VarInt byte format is not part of this model. The encoder takes it as a function from i32 to bytes, written with one `write_all`.
- Codec.Writer.WriteAll: a failing sink is assumed to have taken exactly the first k bytes. `std::io::Write::write_all` leaves that amount unspecified.
- Codec.EncodeStr: characters are Unicode scalar values encoded to UTF-8 here. Rust stores a string already encoded.
- Importing.FormatDuration: `as_secs` is a `u64`. Seconds are unbounded here, and Rust's `{}` prints them as the same decimal digits.
- Importing.AsUsize: `usize` is taken to be 64 bits wide.
- Importing.ParseI32: only ASCII digits are accepted after an optional sign, as in `str::parse::<i32>`. Rust's error kinds are not modelled.
- Importing.ImportRegion: the batches are returned rather than processed. Every chunk is processed only if every `insert_chunks(...).await?` succeeds; an insert error ends the import early and leaves the rest of the region unprocessed, which the model does not represent. Region-file reading, chunk decoding, rayon parallelism, database inserts, the progress bar, logging and the reading of `env::args` (the arguments are a parameter) are left out as I/O and foreign crates.
- The login packet handler, the error enum and the packet registry are not part of this model. They are a thin wrapper over `get_mut`, data without logic, and macro output respectively.

## Findings

| source | as written | input that shows it | evidently intended | confidence | as-written member | corrected member |
|---|---|---|---|---|---|---|
| src/world/importing.rs:18-37, 105, 121-122 | `get_batch_size` accepts any parsed i32, including 0, and the drain loop takes `min(batch_size, len)` chunks per pass | arguments `["ferrumc", "--batch_size=0"]` with any non-empty region: every pass drains nothing, so `while !chunks.is_empty()` never ends | a batch size of 0 falls back to the default of 150, so every pass takes at least one chunk and the loop ends | not executed | Importing.ZeroBatchSizeNeverDrains | Importing.ImportRegion |
