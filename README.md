# Upload registry of the upload widget

This project models the client-side upload store of the upload widget
(`src/store/uploads.ts`). The store keeps one piece of state, `uploads`: a
JavaScript `Map` from generated upload ids to `Upload` records. An `Upload`
holds exactly two things, the file's `name` and the `File` itself. The store's
one operation, `addUploads(files)`, builds a new state from the current one:

1. it copies the current map into a new `Map`;
2. it walks the files in order and draws an id from `crypto.randomUUID()` for each file;
3. it sets `{ name: file.name, file }` under that id in the copy;
4. it makes the copy the store's new `uploads`.

The store starts with an empty map.

The model has two modules:

- `JsMaps` (`jsmap.dfy`) covers the part of the JavaScript `Map` the store uses.
  `JsMap` is a class with two fields: the keys in insertion order (`keys`) and the
  key/value association (`entries`). It has the empty constructor, the copy
  constructor `Copy` and `Set`. `Set` overwrites the value of a key that is
  already present and keeps that key where it was. A new key goes to the end.
  The model keeps the order because a `Map` iterates in insertion order.
- `Uploads` (`uploads.dfy`) holds the `File` and `Upload` records and the class
  `UploadStore`, whose `uploads` field holds a `JsMap`. The updater passed to
  the store's `set` is the method `NextUploads`. It builds a fresh `JsMap` with a
  loop that has invariants. `AddUploads` installs the result.
  - The function `Inserted` gives, as a value, the entries after the batch's
    `set` calls in order. It follows `Map.set` exactly, so a repeated id
    overwrites.
  - The lemmas about `Inserted` take only the assumptions about ids that each
    one needs.

`crypto.randomUUID()` is a source of randomness, so the model has no id
generator. `AddUploads` takes what the generator hands out for the batch as a
parameter (`IdSupply`): either one id per file, or a throw. When ids are
handed out, its precondition states what the code relies on without
checking: no id is already a key of the store (`FreshFor`) and no two ids in the batch are equal
(`Distinct`). If an id did collide, `Map.set` would silently replace an entry.
`InsertedEntry` and `InsertedKeeps` state what happens to each key without that
assumption.

`Upload` has only `name` and `file`, and `addUploads` returns nothing.

`crypto.randomUUID()` can also throw: it is missing outside a secure context.
The model covers this through `IdSupply.Unavailable`. The throw happens at the
first draw, so it ends the updater before `set` installs anything. The store
then keeps its old map, and the partly filled copy is dropped. An empty batch
never draws an id, so it cannot throw. `AddUploads` reports the throw through
`thrown`.

## Model

| member | source | states |
|---|---|---|
| JsMaps.JsMap.constructor | src/store/uploads.ts:34 | `new Map()` holds no keys and no entries. |
| JsMaps.JsMap.Copy | src/store/uploads.ts:16 | `new Map(state.uploads)` is a separate map with the same entries in the same key order. |
| JsMaps.JsMap.Set | src/store/uploads.ts:21-24 | `set(k, v)` binds `k` to `v` and leaves every other entry alone. A new key is appended to the iteration order. A present key keeps its place. The key list stays duplicate-free and in step with the entries. |
| Uploads.UploadStore.constructor | src/store/uploads.ts:33-36 | The registry starts out as an empty map. |
| Uploads.UploadStore.NextUploads | src/store/uploads.ts:16-25 | The updater returns a newly allocated map and leaves the map it was given alone. It throws exactly when the id source is unavailable and there is at least one file. Otherwise, its entries are the current entries after one `set` per file, in order. Its keys are the current keys followed by the batch's ids. |
| Uploads.UploadStore.AddUploads | src/store/uploads.ts:14-31 | The previous map object is never modified. It throws exactly when the id source is unavailable and the batch is not empty, and then the store keeps its old map. Otherwise the state becomes a new map object. The new entries are `Inserted(old entries, ids, files)`. The keys are the old keys followed by the ids, in submission order. In iteration order, the records are the old records followed by one record per file. Every old entry keeps its record. Each file has an entry under its id with `name == file.name` and `file == file`. The map grows by exactly `|files|`. An empty batch never throws and leaves keys and entries unchanged. |
| Uploads.UploadOf | src/store/uploads.ts:21-24 | The record stored for a file has the file's `name` and the file itself, and nothing else. |
| Uploads.Inserted | src/store/uploads.ts:18-24 | This is the reference definition of the entries after `Map.set(ids[i], UploadOf(files[i]))` for each file in order, with overwriting on a repeated id. Its contract says no key is ever lost. The lemmas below give its full meaning. |
| Uploads.InOrder | src/store/uploads.ts:16-25 | The records of a map listed in a given key order, which is a `Map`'s iteration order when the keys are its insertion order. It lists one record per key. |
| Uploads.InOrderAt | src/store/uploads.ts:16-25 | Position `p` of the listing holds the record of the `p`-th key. |
| Uploads.UploadsOf | src/store/uploads.ts:18-24 | The records a batch produces, in submission order: one per file, with position `p` holding `UploadOf(files[p])`. |
| Uploads.InsertedKeys | src/store/uploads.ts:16-25 | Nothing else changes: the keys after the batch are exactly the old keys plus the batch's ids. This holds even when ids collide. |
| Uploads.InsertedKeeps | src/store/uploads.ts:16-24 | An old entry whose key the batch does not use keeps its record. |
| Uploads.InsertedEntry | src/store/uploads.ts:18-24 | The file at position `i` is stored under `ids[i]` with its own name and file, provided no later file gets the same id. A later `set` with the same id would replace it. |
| Uploads.InsertedAllFiles | src/store/uploads.ts:18-24 | With pairwise distinct ids, every submitted file has an entry under its id, built from that file. |
| Uploads.InsertedPreservesOld | src/store/uploads.ts:16-24 | With fresh ids, every old key is still present and maps to the same `Upload`. |
| Uploads.InsertedSize | src/store/uploads.ts:18-25 | With fresh, pairwise distinct ids, the map grows by exactly one entry per file. |
| Uploads.InsertedInOrder | src/store/uploads.ts:16-25 | With fresh, distinct ids, the records in iteration order (old keys, then the batch's ids) are the old records followed by the new records in submission order. |

## Left out

- Uploads.UploadStore.AddUploads: when ids are handed out, requires them to be fresh and pairwise distinct, because `crypto.randomUUID()` (src/store/uploads.ts:19) is random and is trusted to produce unique ids. The code does not check this, and on a collision `Map.set` would replace the earlier entry. `Inserted`, `InsertedKeys`, `InsertedKeeps` and `InsertedEntry` describe that overwriting behaviour without the assumption.
- `IdSupply` throws only at the first draw of a batch. Whether `randomUUID` exists depends on the page's context, which does not change between the calls of one batch, so a throw part-way through a batch is not modelled.
- The store library's `create`/`set`/`get` machinery (src/store/uploads.ts:1, 13, 15) is left out. The model assigns the state field directly. It does not model subscriber notification, or `set`'s shallow merge of the returned object into the state.
- Only `name` is read from a `File`. The model's `File` has a name and an opaque byte payload, with no size, MIME type or modification time.
- The HTTP upload in src/http/upload-file-to-store.ts is network I/O and is left out.
- The React components in src/components/ only render. Their pending flag, percentage and item count are fixed constants, so they are left out.
- Upload status, sizes, progress, remote URL, cancellation, retry, the compression and transfer pipeline and the aggregate progress percentage do not exist in the code, so they are not modelled.
