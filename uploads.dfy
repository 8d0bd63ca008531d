/**
 * The upload registry: a store whose one piece of state is a `Map` from
 * generated upload ids to `Upload` records, and whose one operation,
 * `addUploads`, registers a batch of user-selected files.
 *
 * The id generator (`crypto.randomUUID()`) is outside the model: the ids it
 * would produce for a batch are passed in, and the caller promises that they
 * are fresh (no id is already a key of the store) and pairwise distinct.
 */
module Uploads {
  import opened JsMaps

  type UploadId = string

  /** A browser `File`. The store reads only its `name`; `content` stands for the rest of the payload. */
  datatype File = File(name: string, content: seq<bv8>)

  /** One registered file: its display name and the file itself. */
  datatype Upload = Upload(name: string, file: File)

  /**
   * What `crypto.randomUUID()` hands the updater for a batch: either the ids
   * its calls return, in call order, or a throw at the first call (the
   * function is missing outside a secure context).
   */
  datatype IdSupply = Uuids(ids: seq<UploadId>) | Unavailable
  {
    /** The ids drawn when no call throws. */
    function Drawn(): seq<UploadId>
    {
      if Uuids? then ids else []
    }
  }

  /** The record `addUploads` stores for a file: the file's name and the file itself. */
  function UploadOf(f: File): (u: Upload)
    ensures u.name == f.name && u.file == f
  {
    Upload(f.name, f)
  }

  /** No id occurs twice in the batch. */
  ghost predicate Distinct(ids: seq<UploadId>)
  {
    forall i, j :: 0 <= i < j < |ids| ==> ids[i] != ids[j]
  }

  /** No id of the batch is already a key of `m`. */
  ghost predicate FreshFor(ids: seq<UploadId>, m: map<UploadId, Upload>)
  {
    forall i :: 0 <= i < |ids| ==> ids[i] !in m
  }

  /**
   * The entries after `set(ids[i], UploadOf(files[i]))` for i = 0, 1, ... in
   * turn, starting from `m`. This is `Map.set` as written: a repeated or
   * already-present id is overwritten, so it holds without any freshness
   * assumption.
   */
  function Inserted(m: map<UploadId, Upload>, ids: seq<UploadId>, files: seq<File>): (r: map<UploadId, Upload>)
    requires |ids| == |files|
    ensures m.Keys <= r.Keys
    decreases |ids|
  {
    if ids == [] then m
    else
      var n := |ids| - 1;
      Inserted(m, ids[..n], files[..n])[ids[n] := UploadOf(files[n])]
  }

  /** The records of `m` listed in the order of `keys`. */
  function InOrder(keys: seq<UploadId>, m: map<UploadId, Upload>): (r: seq<Upload>)
    requires forall k :: k in keys ==> k in m
    ensures |r| == |keys|
    decreases |keys|
  {
    if keys == [] then []
    else
      var n := |keys| - 1;
      InOrder(keys[..n], m) + [m[keys[n]]]
  }

  /** The records a batch of files produces, in submission order. */
  function UploadsOf(files: seq<File>): (r: seq<Upload>)
    ensures |r| == |files|
    ensures forall p :: 0 <= p < |files| ==> r[p] == UploadOf(files[p])
    decreases |files|
  {
    if files == [] then []
    else
      var n := |files| - 1;
      UploadsOf(files[..n]) + [UploadOf(files[n])]
  }

  /** Nothing else changes: the keys afterwards are the old keys plus the batch's ids. */
  lemma {:induction false} InsertedKeys(m: map<UploadId, Upload>, ids: seq<UploadId>, files: seq<File>)
    requires |ids| == |files|
    ensures Inserted(m, ids, files).Keys == m.Keys + (set k | k in ids)
  {
    if ids != [] {
      var n := |ids| - 1;
      InsertedKeys(m, ids[..n], files[..n]);
      assert ids == ids[..n] + [ids[n]];
      assert (set k | k in ids) == (set k | k in ids[..n]) + {ids[n]};
    }
  }

  /** An entry whose key the batch does not reuse keeps its record. */
  lemma {:induction false} InsertedKeeps(m: map<UploadId, Upload>, ids: seq<UploadId>, files: seq<File>, k: UploadId)
    requires |ids| == |files|
    requires k in m && k !in ids
    ensures k in Inserted(m, ids, files) && Inserted(m, ids, files)[k] == m[k]
  {
    if ids != [] {
      var n := |ids| - 1;
      assert ids == ids[..n] + [ids[n]];
      InsertedKeeps(m, ids[..n], files[..n], k);
    }
  }

  /**
   * The file at position `i` is registered under `ids[i]` with its own name
   * and file, provided no later file of the batch gets the same id (a later
   * `set` with that id would replace it).
   */
  lemma {:induction false} InsertedEntry(m: map<UploadId, Upload>, ids: seq<UploadId>, files: seq<File>, i: nat)
    requires |ids| == |files| && i < |ids|
    requires forall j :: i < j < |ids| ==> ids[j] != ids[i]
    ensures ids[i] in Inserted(m, ids, files)
    ensures Inserted(m, ids, files)[ids[i]].name == files[i].name
    ensures Inserted(m, ids, files)[ids[i]].file == files[i]
  {
    var n := |ids| - 1;
    if i < n {
      InsertedEntry(m, ids[..n], files[..n], i);
    }
  }

  /** With distinct ids, every file of the batch is registered under its id with its own name and file. */
  lemma {:induction false} InsertedAllFiles(m: map<UploadId, Upload>, ids: seq<UploadId>, files: seq<File>)
    requires |ids| == |files| && Distinct(ids)
    ensures forall i :: 0 <= i < |files| ==>
              ids[i] in Inserted(m, ids, files) && Inserted(m, ids, files)[ids[i]] == Upload(files[i].name, files[i])
  {
    forall i | 0 <= i < |files|
      ensures ids[i] in Inserted(m, ids, files) && Inserted(m, ids, files)[ids[i]] == Upload(files[i].name, files[i])
    {
      InsertedEntry(m, ids, files, i);
    }
  }

  /** Every old entry survives unchanged when the ids are fresh. */
  lemma {:induction false} InsertedPreservesOld(m: map<UploadId, Upload>, ids: seq<UploadId>, files: seq<File>)
    requires |ids| == |files| && FreshFor(ids, m)
    ensures forall k :: k in m ==> k in Inserted(m, ids, files) && Inserted(m, ids, files)[k] == m[k]
  {
    forall k | k in m
      ensures k in Inserted(m, ids, files) && Inserted(m, ids, files)[k] == m[k]
    {
      InsertedKeeps(m, ids, files, k);
    }
  }

  /** With fresh, distinct ids the map grows by exactly one entry per file. */
  lemma {:induction false} InsertedSize(m: map<UploadId, Upload>, ids: seq<UploadId>, files: seq<File>)
    requires |ids| == |files| && FreshFor(ids, m) && Distinct(ids)
    ensures |Inserted(m, ids, files)| == |m| + |files|
  {
    if ids != [] {
      var n := |ids| - 1;
      InsertedSize(m, ids[..n], files[..n]);
      InsertedKeys(m, ids[..n], files[..n]);
      assert ids[n] !in ids[..n];
    }
  }

  /** `InOrder` lists, at each position, the record of the key at that position. */
  lemma {:induction false} InOrderAt(keys: seq<UploadId>, m: map<UploadId, Upload>)
    requires forall k :: k in keys ==> k in m
    ensures forall p :: 0 <= p < |keys| ==> InOrder(keys, m)[p] == m[keys[p]]
  {
    if keys != [] {
      InOrderAt(keys[..|keys| - 1], m);
    }
  }

  /** Listing the keys `a + b` lists the records of `a`, then those of `b`. */
  lemma {:induction false} InOrderConcat(a: seq<UploadId>, b: seq<UploadId>, m: map<UploadId, Upload>)
    requires forall k :: k in a + b ==> k in m
    ensures forall k :: k in a ==> k in m
    ensures forall k :: k in b ==> k in m
    ensures InOrder(a + b, m) == InOrder(a, m) + InOrder(b, m)
  {
    assert forall k :: k in a ==> k in a + b;
    assert forall k :: k in b ==> k in a + b;
    if b != [] {
      var n := |b| - 1;
      assert (a + b)[..|a| + n] == a + b[..n];
      InOrderConcat(a, b[..n], m);
    } else {
      assert a + b == a;
    }
  }

  /** Two maps that agree on the listed keys list the same records. */
  lemma {:induction false} InOrderAgree(keys: seq<UploadId>, m: map<UploadId, Upload>, m': map<UploadId, Upload>)
    requires forall k :: k in keys ==> k in m && k in m' && m[k] == m'[k]
    ensures InOrder(keys, m) == InOrder(keys, m')
  {
    if keys != [] {
      InOrderAgree(keys[..|keys| - 1], m, m');
    }
  }

  /** If each id of a batch holds its file's record, listing the ids lists the batch's records. */
  lemma {:induction false} InOrderOfBatch(ids: seq<UploadId>, files: seq<File>, r: map<UploadId, Upload>)
    requires |ids| == |files|
    requires forall i :: 0 <= i < |ids| ==> ids[i] in r && r[ids[i]] == UploadOf(files[i])
    ensures forall k :: k in ids ==> k in r
    ensures InOrder(ids, r) == UploadsOf(files)
  {
    if ids != [] {
      var n := |ids| - 1;
      InOrderOfBatch(ids[..n], files[..n], r);
    }
  }

  /**
   * In iteration order, the registry after the batch lists the old records
   * first, then one record per submitted file, in submission order.
   */
  lemma InsertedInOrder(keys: seq<UploadId>, m: map<UploadId, Upload>, ids: seq<UploadId>, files: seq<File>)
    requires |ids| == |files| && FreshFor(ids, m) && Distinct(ids)
    requires forall k :: k in keys ==> k in m
    ensures forall k :: k in keys + ids ==> k in Inserted(m, ids, files)
    ensures InOrder(keys + ids, Inserted(m, ids, files)) == InOrder(keys, m) + UploadsOf(files)
  {
    var r := Inserted(m, ids, files);
    InsertedPreservesOld(m, ids, files);
    InsertedAllFiles(m, ids, files);
    InOrderOfBatch(ids, files, r);
    assert forall k :: k in keys + ids ==> k in keys || k in ids;
    InOrderConcat(keys, ids, r);
    InOrderAgree(keys, m, r);
  }

  /** Everything `addUploads` promises about a batch with fresh, distinct ids, gathered for the store. */
  lemma BatchAdded(keys: seq<UploadId>, m: map<UploadId, Upload>, ids: seq<UploadId>, files: seq<File>)
    requires |ids| == |files| && FreshFor(ids, m) && Distinct(ids)
    requires forall k :: k in keys ==> k in m
    ensures forall k :: k in keys + ids ==> k in Inserted(m, ids, files)
    ensures InOrder(keys + ids, Inserted(m, ids, files)) == InOrder(keys, m) + UploadsOf(files)
    ensures forall k :: k in m ==> k in Inserted(m, ids, files) && Inserted(m, ids, files)[k] == m[k]
    ensures forall i :: 0 <= i < |files| ==>
              ids[i] in Inserted(m, ids, files) && Inserted(m, ids, files)[ids[i]] == Upload(files[i].name, files[i])
    ensures |Inserted(m, ids, files)| == |m| + |files|
  {
    InsertedInOrder(keys, m, ids, files);
    InsertedPreservesOld(m, ids, files);
    InsertedAllFiles(m, ids, files);
    InsertedSize(m, ids, files);
  }

  /** Within a batch of fresh, distinct ids, the next id is neither an old key nor one already set. */
  lemma NextIdIsNew(order: seq<UploadId>, m: map<UploadId, Upload>, ids: seq<UploadId>, i: nat)
    requires forall k :: k in m <==> k in order
    requires FreshFor(ids, m) && Distinct(ids) && i < |ids|
    ensures ids[i] !in order + ids[..i]
  {
  }

  /** One more turn of the updater's loop sets the next file under the next id. */
  lemma InsertedStep(order: seq<UploadId>, m: map<UploadId, Upload>, ids: seq<UploadId>, files: seq<File>, i: nat)
    requires |ids| == |files| && i < |ids|
    ensures Inserted(m, ids[..i + 1], files[..i + 1]) == Inserted(m, ids[..i], files[..i])[ids[i] := UploadOf(files[i])]
    ensures order + ids[..i + 1] == order + ids[..i] + [ids[i]]
  {
    assert ids[..i + 1][..i] == ids[..i];
    assert files[..i + 1][..i] == files[..i];
  }

  /** The store created by `useUploads`: its state is the `uploads` map. */
  class UploadStore {
    var uploads: JsMap<UploadId, Upload>

    ghost predicate Valid()
      reads this, uploads
    {
      uploads.Valid()
    }

    /** The registry starts out as an empty map. */
    constructor ()
      ensures Valid() && fresh(uploads)
      ensures uploads.keys == [] && uploads.entries == map[]
    {
      uploads := new JsMap();
    }

    /**
     * The updater handed to the store's `set`: copies the current map into a
     * new `Map` and, for each file in order, draws an id and sets the file's
     * record under it in the copy. The map it was given is left as it was. If
     * drawing an id throws, the exception ends the updater at once and the
     * partly filled copy is dropped (`thrown`).
     */
    static method NextUploads(current: JsMap<UploadId, Upload>, files: seq<File>, supply: IdSupply)
      returns (thrown: bool, nextUploads: JsMap<UploadId, Upload>)
      requires current.Valid()
      requires supply.Uuids? ==>
                 |supply.ids| == |files| && FreshFor(supply.ids, current.entries) && Distinct(supply.ids)
      ensures fresh(nextUploads) && nextUploads.Valid()
      ensures thrown <==> supply.Unavailable? && files != []
      ensures !thrown ==> |supply.Drawn()| == |files|
      ensures !thrown ==> nextUploads.entries == Inserted(current.entries, supply.Drawn(), files)
      ensures !thrown ==> nextUploads.keys == current.keys + supply.Drawn()
    {
      thrown := false;
      nextUploads := new JsMap.Copy(current);
      ghost var ids := supply.Drawn();
      for i := 0 to |files|
        invariant nextUploads.Valid()
        invariant i <= |ids|
        invariant nextUploads.entries == Inserted(current.entries, ids[..i], files[..i])
        invariant nextUploads.keys == current.keys + ids[..i]
      {
        if supply.Unavailable? {
          thrown := true;
          return;
        }
        assert supply.ids == ids;
        var uploadId := supply.ids[i];
        NextIdIsNew(current.keys, current.entries, ids, i);
        InsertedStep(current.keys, current.entries, ids, files, i);
        nextUploads.Set(uploadId, UploadOf(files[i]));
      }
      assert ids[..|files|] == ids && files[..|files|] == files;
    }

    /**
     * `addUploads(files)`: replaces the store's map with the one the updater
     * builds from it. When the updater throws, `set` installs nothing, the
     * store keeps its old map and the exception reaches the caller (`thrown`).
     */
    method AddUploads(files: seq<File>, supply: IdSupply) returns (thrown: bool)
      requires Valid()
      requires supply.Uuids? ==>
                 |supply.ids| == |files| && FreshFor(supply.ids, uploads.entries) && Distinct(supply.ids)
      modifies this
      ensures Valid()
      ensures unchanged(old(uploads))
      ensures thrown <==> supply.Unavailable? && files != []
      ensures thrown ==> uploads == old(uploads)
      ensures !thrown ==> fresh(uploads) && |supply.Drawn()| == |files|
      ensures !thrown ==> uploads.entries == Inserted(old(uploads.entries), supply.Drawn(), files)
      ensures !thrown ==> uploads.keys == old(uploads.keys) + supply.Drawn()
      ensures !thrown ==> InOrder(uploads.keys, uploads.entries)
                          == InOrder(old(uploads.keys), old(uploads.entries)) + UploadsOf(files)
      ensures !thrown ==> forall k :: k in old(uploads.entries) ==>
                            k in uploads.entries && uploads.entries[k] == old(uploads.entries)[k]
      ensures !thrown ==> forall i :: 0 <= i < |files| ==>
                            supply.ids[i] in uploads.entries && uploads.entries[supply.ids[i]] == Upload(files[i].name, files[i])
      ensures !thrown ==> |uploads.entries| == |old(uploads.entries)| + |files|
      ensures files == [] ==> !thrown && uploads.entries == old(uploads.entries) && uploads.keys == old(uploads.keys)
    {
      var nextUploads;
      thrown, nextUploads := NextUploads(uploads, files, supply);
      if !thrown {
        ghost var ids := supply.Drawn();
        BatchAdded(uploads.keys, uploads.entries, ids, files);
        uploads := nextUploads;
      }
    }
  }
}
