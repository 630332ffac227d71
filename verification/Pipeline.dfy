/** The storage pipeline: persist artifacts, embed every chunk, upsert every vector, and only
    then activate the snapshot. Every call to the outside may fail. */
module Pipeline {
  import opened Text

  const EMBED_BATCH_SIZE: nat := 50
  const VECTOR_UPSERT_BATCH_SIZE: nat := 100

  type ChunkId = nat
  type SnapshotId = nat
  type Vector = seq<real>

  datatype Chunk = Chunk(id: ChunkId, snapshot: SnapshotId, filePath: string, content: string)

  datatype File = File(path: string, chunkContents: seq<string>)

  datatype Input = Input(project: string, snapshot: SnapshotId, branch: string, files: seq<File>)

  datatype Point = Point(id: ChunkId, vector: Vector, project: string, snapshot: SnapshotId, filePath: string, branch: string)

  function Truncate(text: string, maxChars: nat): string {
    if |text| > maxChars then text[..maxChars] else text
  }

  lemma TruncateMeaning(text: string, maxChars: nat)
    ensures IsLongestStart(text, Truncate(text, maxChars), maxChars)
    ensures forall start :: IsLongestStart(text, start, maxChars) ==> start == Truncate(text, maxChars)
  {
  }

  // ----- The outside world

  /** The embedding server. Asked for a batch it may fail, or answer with too few vectors or vectors
      of another dimension; a full answer holds the embedding of each text in order. */
  class EmbedServer {
    const model: string -> Vector
    /** Whether every call is answered in full; likewise below. */
    const reliable: bool

    constructor (model: string -> Vector, reliable: bool)
      ensures this.model == model && this.reliable == reliable
    {
      this.model, this.reliable := model, reliable;
    }

    method Post(texts: seq<string>) returns (r: Option<seq<Vector>>)
      ensures reliable ==> r.Some? && |r.value| == |texts|
      ensures r.Some? && |r.value| == |texts| ==> forall i :: 0 <= i < |texts| ==> r.value[i] == model(texts[i])
    {
      var all := seq(|texts|, i requires 0 <= i < |texts| => model(texts[i]));
      if !reliable {
        if * { return None; }
        if |all| > 0 {
          if * { return Some(all[1..]); }
        }
      }
      return Some(all);
    }
  }

  /** The vector store, as the log of points it has accepted. A failed call may have stored a
      part of its batch. */
  class VectorStore {
    var points: seq<Point>
    const reliable: bool

    constructor (reliable: bool)
      ensures points == [] && this.reliable == reliable
    {
      points, this.reliable := [], reliable;
    }

    method EnsureCollection() returns (ok: bool)
      ensures reliable ==> ok
    {
      ok := *;
      ok := ok || reliable;
    }

    method UpsertPoints(batch: seq<Point>) returns (ok: bool)
      modifies this
      ensures reliable ==> ok
      ensures ok ==> points == old(points) + batch
      ensures !ok ==> exists k :: 0 <= k <= |batch| && points == old(points) + batch[..k]
    {
      ok := *;
      ok := ok || reliable;
      if ok {
        points := points + batch;
      } else {
        var k: nat :| k <= |batch|;
        points := points + batch[..k];
      }
    }
  }

  /** The artifact writer; chunk ids are generated by the database. */
  class Writer {
    var chunks: seq<Chunk>
    var nextId: ChunkId
    const reliable: bool

    constructor (reliable: bool)
      ensures Valid() && chunks == [] && this.reliable == reliable
    {
      chunks, nextId, this.reliable := [], 0, reliable;
    }

    ghost predicate Valid()
      reads this
    {
      DistinctIds(chunks) && forall i :: 0 <= i < |chunks| ==> chunks[i].id < nextId
    }

    method WriteFile(snapshot: SnapshotId, f: File) returns (r: Option<seq<Chunk>>)
      requires Valid()
      modifies this
      ensures Valid() && old(chunks) <= chunks
      ensures reliable ==> r.Some?
      ensures r.Some? ==> chunks == old(chunks) + r.value && ChunksOf(r.value, f)
      ensures NewSince(old(chunks), chunks, snapshot, old(nextId), nextId)
    {
      var written: seq<Chunk> := [];
      for i := 0 to |f.chunkContents|
        invariant Valid() && chunks == old(chunks) + written && NewSince(old(chunks), chunks, snapshot, old(nextId), nextId)
        invariant ChunksOf(written, File(f.path, f.chunkContents[..i]))
      {
        if !reliable {
          if * { return None; }
        }
        var c := Chunk(nextId, snapshot, f.path, f.chunkContents[i]);
        chunks, written, nextId := chunks + [c], written + [c], nextId + 1;
      }
      assert f.chunkContents[..|f.chunkContents|] == f.chunkContents;
      r := Some(written);
    }

    /** Deletes the snapshot's files, and with them their chunks. */
    method DeleteSnapshotArtifacts(snapshot: SnapshotId) returns (ok: bool)
      requires Valid()
      modifies this
      ensures Valid() && nextId == old(nextId)
      ensures reliable ==> ok
      ensures chunks == if ok then Without(old(chunks), snapshot) else old(chunks)
    {
      ok := *;
      ok := ok || reliable;
      if ok {
        WithoutMeaning(chunks, snapshot);
        chunks := Without(chunks, snapshot);
      }
    }
  }

  /** The chunks of all other snapshots. */
  function Without(chunks: seq<Chunk>, snapshot: SnapshotId): seq<Chunk> {
    if chunks == [] then []
    else
      var n := |chunks| - 1;
      Without(chunks[..n], snapshot) + if chunks[n].snapshot == snapshot then [] else [chunks[n]]
  }

  lemma {:induction false} WithoutMeaning(chunks: seq<Chunk>, snapshot: SnapshotId)
    ensures forall c :: c in Without(chunks, snapshot) <==> c in chunks && c.snapshot != snapshot
    ensures DistinctIds(chunks) ==> DistinctIds(Without(chunks, snapshot))
  {
    if chunks != [] {
      var n := |chunks| - 1;
      WithoutMeaning(chunks[..n], snapshot);
      forall c | c in Without(chunks[..n], snapshot) && DistinctIds(chunks)
        ensures c.id != chunks[n].id
      {
        var i :| 0 <= i < n && chunks[..n][i] == c;
      }
    }
  }

  /** One chunk per parsed chunk of the file, in order. */
  ghost predicate ChunksOf(chunks: seq<Chunk>, f: File) {
    && |chunks| == |f.chunkContents|
    && forall i :: 0 <= i < |chunks| ==> chunks[i].filePath == f.path && chunks[i].content == f.chunkContents[i]
  }

  ghost predicate DistinctIds(chunks: seq<Chunk>) {
    forall i, j :: 0 <= i < j < |chunks| ==> chunks[i].id != chunks[j].id
  }

  /** The chunks added since belong to the snapshot and have ids generated since. */
  ghost predicate NewSince(before: seq<Chunk>, after: seq<Chunk>, snapshot: SnapshotId, firstId: ChunkId, nextId: ChunkId) {
    firstId <= nextId && forall i :: |before| <= i < |after| ==> after[i].snapshot == snapshot && after[i].id >= firstId
  }

  // ----- Snapshots

  datatype Snapshot = Snapshot(project: string, branch: string, active: bool)

  function Deactivated(rows: map<SnapshotId, Snapshot>, project: string, branch: string): map<SnapshotId, Snapshot> {
    map id | id in rows ::
      if rows[id].project == project && rows[id].branch == branch then rows[id].(active := false) else rows[id]
  }

  function Activated(rows: map<SnapshotId, Snapshot>, id: SnapshotId): map<SnapshotId, Snapshot> {
    if id in rows then rows[id := rows[id].(active := true)] else rows
  }

  function ActiveOn(rows: map<SnapshotId, Snapshot>, project: string, branch: string): set<SnapshotId> {
    set id | id in rows && rows[id] == Snapshot(project, branch, true)
  }

  /** The row a new attempt starts from: the insert resets a row that is already there. */
  function Created(rows: map<SnapshotId, Snapshot>, project: string, branch: string, id: SnapshotId): map<SnapshotId, Snapshot> {
    rows[id := Snapshot(project, branch, false)]
  }

  class SnapshotTable {
    var rows: map<SnapshotId, Snapshot>
    const reliable: bool

    constructor (rows: map<SnapshotId, Snapshot>, reliable: bool)
      ensures this.rows == rows && this.reliable == reliable
    {
      this.rows, this.reliable := rows, reliable;
    }

    /** `id` is the new row's id, or that of the row already there for the same commit. */
    method CreateSnapshot(project: string, branch: string, id: SnapshotId) returns (ok: bool)
      modifies this
      ensures reliable ==> ok
      ensures rows == if ok then Created(old(rows), project, branch, id) else old(rows)
    {
      ok := Proceeds();
      if ok {
        rows := Created(rows, project, branch, id);
      }
    }

    /** One statement of a transaction: whether it went through. */
    method Proceeds() returns (ok: bool)
      ensures reliable ==> ok
    {
      ok := *;
      ok := ok || reliable;
    }

    /** Both updates happen in one transaction; any failure before or at the commit rolls it back. */
    method ActivateSnapshotTx(project: string, branch: string, snapshot: SnapshotId) returns (ok: bool)
      modifies this
      ensures reliable ==> ok
      ensures ok ==> rows == Activated(Deactivated(old(rows), project, branch), snapshot)
      ensures !ok ==> rows == old(rows)
    {
      ok := Proceeds();
      if !ok { return; }
      var tx := rows;
      ok := Proceeds();
      if !ok { return; }
      tx := Deactivated(tx, project, branch);
      ok := Proceeds();
      if !ok { return; }
      tx := Activated(tx, snapshot);
      ok := Proceeds();
      if !ok { return; }
      rows := tx;
    }
  }

  /** After a committed activation the snapshot is the only active one of its branch exactly when
      its row exists and belongs to the branch; if the row is gone, none is active, since updating
      no row is not an error. */
  lemma ActivationEffect(rows: map<SnapshotId, Snapshot>, project: string, branch: string, snapshot: SnapshotId)
    ensures ActiveOn(Activated(Deactivated(rows, project, branch), snapshot), project, branch) ==
            if snapshot in rows && rows[snapshot].project == project && rows[snapshot].branch == branch then {snapshot} else {}
  {
  }

  /** Other branches keep their active snapshots, unless the snapshot belongs to one of them. */
  lemma ActivationElsewhere(rows: map<SnapshotId, Snapshot>, project: string, branch: string, snapshot: SnapshotId, p: string, b: string)
    requires p != project || b != branch
    requires snapshot in rows ==> rows[snapshot].project != p || rows[snapshot].branch != b
    ensures ActiveOn(Activated(Deactivated(rows, project, branch), snapshot), p, b) == ActiveOn(rows, p, b)
  {
  }

  // ----- Embedding

  /** One embedding per text, in order, each of the configured dimension. */
  ghost predicate EmbeddingsOf(vectors: seq<Vector>, texts: seq<string>, model: string -> Vector, dimensions: nat) {
    |vectors| == |texts| && forall i :: 0 <= i < |texts| ==> vectors[i] == model(texts[i]) && |vectors[i]| == dimensions
  }

  class OllamaClient {
    const server: EmbedServer
    const dimensions: nat
    const maxInputChars: nat

    constructor (server: EmbedServer, dimensions: nat, maxInputChars: nat)
      ensures this.server == server && this.dimensions == dimensions && this.maxInputChars == maxInputChars
    {
      this.server, this.dimensions, this.maxInputChars := server, dimensions, maxInputChars;
    }

    /** The server answers in full and with vectors of the configured dimension. */
    ghost predicate Healthy() {
      server.reliable && forall text: string :: |server.model(text)| == dimensions
    }

    method EmbedBatch(texts: seq<string>) returns (r: Option<seq<Vector>>)
      ensures Healthy() ==> r.Some?
      ensures r.Some? ==> EmbeddingsOf(r.value, texts, server.model, dimensions)
    {
      var resp := server.Post(texts);
      if resp.None? { return None; }
      if |resp.value| != |texts| { return None; }
      for i := 0 to |resp.value|
        invariant forall k :: 0 <= k < i ==> |resp.value[k]| == dimensions
      {
        if |resp.value[i]| != dimensions { return None; }
      }
      r := resp;
    }

    /** Truncates the texts in place, then embeds them batch by batch. */
    method Embed(texts: array<string>) returns (r: Option<seq<Vector>>)
      modifies texts
      ensures forall i :: 0 <= i < texts.Length ==> texts[i] == Truncate(old(texts[i]), maxInputChars)
      ensures Healthy() ==> r.Some?
      ensures r.Some? ==> EmbeddingsOf(r.value, texts[..], server.model, dimensions)
    {
      for i := 0 to texts.Length
        invariant forall k :: 0 <= k < i ==> texts[k] == Truncate(old(texts[k]), maxInputChars)
        invariant forall k :: i <= k < texts.Length ==> texts[k] == old(texts[k])
      {
        if |texts[i]| > maxInputChars {
          texts[i] := texts[i][..maxInputChars];
        }
      }
      var result: seq<Vector> := [];
      var start := 0;
      while start < texts.Length
        invariant 0 <= start <= texts.Length
        invariant forall k :: 0 <= k < texts.Length ==> texts[k] == Truncate(old(texts[k]), maxInputChars)
        invariant EmbeddingsOf(result, texts[..start], server.model, dimensions)
      {
        var end := start + EMBED_BATCH_SIZE;
        if end > texts.Length { end := texts.Length; }
        var vectors := EmbedBatch(texts[start..end]);
        if vectors.None? { return None; }
        assert texts[..end] == texts[..start] + texts[start..end];
        result := result + vectors.value;
        start := end;
      }
      assert texts[..start] == texts[..];
      r := Some(result);
    }
  }

  // ----- The pipeline

  /** The chunks of several files, one file after the other. */
  ghost predicate ChunksOfAll(chunks: seq<Chunk>, files: seq<File>)
    decreases |files|
  {
    if files == [] then chunks == []
    else
      var n := |files| - 1;
      exists k :: 0 <= k <= |chunks| && ChunksOfAll(chunks[..k], files[..n]) && ChunksOf(chunks[k..], files[n])
  }

  ghost function PointOf(c: Chunk, project: string, branch: string, model: string -> Vector, maxChars: nat): Point {
    Point(c.id, model(Truncate(c.content, maxChars)), project, c.snapshot, c.filePath, branch)
  }

  /** One point per chunk, carrying the chunk's id and the embedding of its truncated text. */
  ghost function PointsOf(chunks: seq<Chunk>, project: string, branch: string, model: string -> Vector, maxChars: nat): seq<Point> {
    seq(|chunks|, i requires 0 <= i < |chunks| => PointOf(chunks[i], project, branch, model, maxChars))
  }

  class Pipeline {
    const writer: Writer
    const embedder: OllamaClient
    const vectorDB: VectorStore
    const snapshots: SnapshotTable

    constructor (writer: Writer, embedder: OllamaClient, vectorDB: VectorStore, snapshots: SnapshotTable)
      requires writer.Valid() && IdsBelow(vectorDB.points, writer.nextId)
      ensures this.writer == writer && this.embedder == embedder && this.vectorDB == vectorDB && this.snapshots == snapshots
      ensures Valid()
    {
      this.writer, this.embedder, this.vectorDB, this.snapshots := writer, embedder, vectorDB, snapshots;
    }

    /** No stored point has an id the database has yet to generate. */
    ghost predicate Valid()
      reads this, writer, vectorDB
    {
      writer.Valid() && IdsBelow(vectorDB.points, writer.nextId)
    }

    /** Phase 1: persist every file and collect its chunks. */
    method WriteFiles(snapshot: SnapshotId, files: seq<File>) returns (r: Option<seq<Chunk>>)
      requires writer.Valid()
      modifies writer
      ensures writer.Valid() && old(writer.chunks) <= writer.chunks
      ensures writer.reliable ==> r.Some?
      ensures r.Some? ==> writer.chunks == old(writer.chunks) + r.value && ChunksOfAll(r.value, files)
      ensures NewSince(old(writer.chunks), writer.chunks, snapshot, old(writer.nextId), writer.nextId)
    {
      var all: seq<Chunk> := [];
      for i := 0 to |files|
        invariant writer.Valid() && writer.chunks == old(writer.chunks) + all
        invariant NewSince(old(writer.chunks), writer.chunks, snapshot, old(writer.nextId), writer.nextId)
        invariant ChunksOfAll(all, files[..i])
      {
        var result := writer.WriteFile(snapshot, files[i]);
        if result.None? { return None; }
        ghost var k := |all|;
        assert files[..i + 1][..i] == files[..i];
        assert (all + result.value)[..k] == all && (all + result.value)[k..] == result.value;
        all := all + result.value;
      }
      assert files[..|files|] == files;
      r := Some(all);
    }

    /** Phase 2: embed the chunk texts. */
    method EmbedChunks(chunks: seq<Chunk>) returns (r: Option<seq<Vector>>)
      ensures embedder.Healthy() ==> r.Some?
      ensures r.Some? ==> |r.value| == |chunks|
      ensures r.Some? ==> forall i :: 0 <= i < |chunks| ==>
                r.value[i] == embedder.server.model(Truncate(chunks[i].content, embedder.maxInputChars))
    {
      var texts := new string[|chunks|](i requires 0 <= i < |chunks| => chunks[i].content);
      r := embedder.Embed(texts);
      if r.Some? {
        if |r.value| != texts.Length { return None; }
      }
    }

    /** Phase 3: upsert the points slice by slice. */
    method UpsertAll(points: seq<Point>) returns (ok: bool)
      modifies vectorDB
      ensures vectorDB.reliable ==> ok
      ensures ok ==> vectorDB.points == old(vectorDB.points) + points
      ensures exists k :: 0 <= k <= |points| && vectorDB.points == old(vectorDB.points) + points[..k]
    {
      var start := 0;
      while start < |points|
        invariant 0 <= start <= |points|
        invariant vectorDB.points == old(vectorDB.points) + points[..start]
      {
        var end := start + VECTOR_UPSERT_BATCH_SIZE;
        if end > |points| { end := |points|; }
        var stored := vectorDB.UpsertPoints(points[start..end]);
        if !stored {
          ghost var k :| 0 <= k <= end - start && vectorDB.points == old(vectorDB.points) + points[..start] + points[start..end][..k];
          PrefixGrows(old(vectorDB.points), points, start, end, k);
          return false;
        }
        PrefixGrows(old(vectorDB.points), points, start, end, end - start);
        start := end;
      }
      assert points[..start] == points[..|points|] == points;
      ok := true;
    }

    /** The points of the chunks, given their vectors. */
    method BuildPoints(chunks: seq<Chunk>, vectors: seq<Vector>, input: Input, ghost before: seq<Chunk>, ghost firstId: ChunkId)
      returns (points: seq<Point>)
      requires |vectors| == |chunks|
      requires writer.Valid() && writer.chunks == before + chunks
      requires NewSince(before, writer.chunks, input.snapshot, firstId, writer.nextId)
      requires forall i :: 0 <= i < |chunks| ==>
                 vectors[i] == embedder.server.model(Truncate(chunks[i].content, embedder.maxInputChars))
      ensures points == PointsOf(chunks, input.project, input.branch, embedder.server.model, embedder.maxInputChars)
      ensures IdsBelow(points, writer.nextId) && AddedFrom([], points, firstId)
    {
      hide DistinctIds;
      assert forall i :: 0 <= i < |chunks| ==> chunks[i] == writer.chunks[|before| + i];
      points := seq(|chunks|, i requires 0 <= i < |chunks| =>
        Point(chunks[i].id, vectors[i], input.project, input.snapshot, chunks[i].filePath, input.branch));
    }

    method ProcessFiles(input: Input) returns (ok: bool)
      requires Valid()
      modifies writer, vectorDB
      ensures Valid() && old(writer.chunks) <= writer.chunks
      ensures NewSince(old(writer.chunks), writer.chunks, input.snapshot, old(writer.nextId), writer.nextId)
      ensures AddedFrom(old(vectorDB.points), vectorDB.points, old(writer.nextId))
      ensures vectorDB.reliable && writer.reliable && embedder.Healthy() ==> ok
      ensures ok ==> EverythingStored(input, old(writer.chunks), writer.chunks, old(vectorDB.points), vectorDB.points,
                                      embedder.server.model, embedder.maxInputChars)
    {
      assert NewSince(writer.chunks, writer.chunks, input.snapshot, writer.nextId, writer.nextId);
      assert AddedFrom(vectorDB.points, vectorDB.points, writer.nextId);
      hide DistinctIds, ChunksOfAll, NewSince, PointsOf, IdsBelow, AddedFrom;
      var ensured := vectorDB.EnsureCollection();
      if !ensured { return false; }
      var chunks := WriteFiles(input.snapshot, input.files);
      StillBelow(vectorDB.points, old(writer.chunks), writer.chunks, input.snapshot, old(writer.nextId), writer.nextId);
      if chunks.None? { return false; }
      assert writer.chunks[|old(writer.chunks)|..] == chunks.value;
      if |chunks.value| == 0 {
        NoPoints(vectorDB.points, input.project, input.branch, embedder.server.model, embedder.maxInputChars);
        return true;
      }
      var vectors := EmbedChunks(chunks.value);
      if vectors.None? { return false; }
      var points := BuildPoints(chunks.value, vectors.value, input, old(writer.chunks), old(writer.nextId));
      ok := UpsertAll(points);
      ghost var k :| 0 <= k <= |points| && vectorDB.points == old(vectorDB.points) + points[..k];
      AddedBelow(old(vectorDB.points), points, k, old(writer.nextId), writer.nextId);
    }

    /** The snapshot is activated only after everything is stored; a failure anywhere, including
        in the activation itself, leaves the active snapshots as they were. Whether it fails or
        not, a run for an inactive snapshot without chunks keeps every active snapshot stored. */
    method Run(input: Input) returns (ok: bool)
      requires Valid()
      modifies writer, vectorDB, snapshots
      ensures Valid() && old(writer.chunks) <= writer.chunks
      ensures vectorDB.reliable && writer.reliable && embedder.Healthy() && snapshots.reliable ==> ok
      ensures ok ==> EverythingStored(input, old(writer.chunks), writer.chunks, old(vectorDB.points), vectorDB.points,
                                      embedder.server.model, embedder.maxInputChars)
      ensures ok ==> OnePointEach(writer.chunks[|old(writer.chunks)|..], vectorDB.points, input.project, input.branch,
                                  embedder.server.model, embedder.maxInputChars)
      ensures ok ==> snapshots.rows == Activated(Deactivated(old(snapshots.rows), input.project, input.branch), input.snapshot)
      ensures !ok ==> snapshots.rows == old(snapshots.rows)
      ensures old(ActiveStored()) && Vacant(old(snapshots.rows), old(writer.chunks), input) ==> ActiveStored()
    {
      ghost var rows, chunks, points, firstId := snapshots.rows, writer.chunks, vectorDB.points, writer.nextId;
      ok := ProcessFiles(input);
      if ok {
        StoredOnce(input, chunks, writer.chunks, points, vectorDB.points, embedder.server.model, embedder.maxInputChars, firstId);
        hide EverythingStored, OnePointEach, AllStored;
        ok := snapshots.ActivateSnapshotTx(input.project, input.branch, input.snapshot);
      }
      hide EverythingStored, OnePointEach, AllStored, NewSince, AddedFrom, DistinctIds, Activated, Deactivated, Vacant;
      if old(ActiveStored()) && Vacant(rows, chunks, input) {
        RunKeepsStored(rows, snapshots.rows, chunks, writer.chunks, points, vectorDB.points, input,
                       embedder.server.model, embedder.maxInputChars, firstId, writer.nextId, ok);
      }
    }

    /** Every chunk of every active snapshot has exactly one point in the store, its own. */
    ghost predicate ActiveStored()
      reads this, writer, vectorDB, snapshots, embedder, embedder.server
    {
      AllStored(snapshots.rows, writer.chunks, vectorDB.points, embedder.server.model, embedder.maxInputChars)
    }

    /** The full index workflow around a run: create or reset the snapshot, delete what an earlier
        attempt left of it, then run. Over any number of such calls, failed ones included, every
        active snapshot stays completely stored. */
    method FullIndex(input: Input) returns (ok: bool)
      requires Valid() && ActiveStored()
      modifies writer, vectorDB, snapshots
      ensures Valid() && ActiveStored()
      ensures vectorDB.reliable && writer.reliable && embedder.Healthy() && snapshots.reliable ==> ok
      ensures ok ==> ActiveOn(snapshots.rows, input.project, input.branch) == {input.snapshot}
      ensures !ok ==> snapshots.rows == old(snapshots.rows) ||
                      snapshots.rows == Created(old(snapshots.rows), input.project, input.branch, input.snapshot)
    {
      hide AllStored, DistinctIds, IdsBelow;
      ghost var rows, chunks := snapshots.rows, writer.chunks;
      ok := snapshots.CreateSnapshot(input.project, input.branch, input.snapshot);
      if !ok { return; }
      CreatedKeepsStored(rows, chunks, vectorDB.points, input, embedder.server.model, embedder.maxInputChars);
      ok := writer.DeleteSnapshotArtifacts(input.snapshot);
      if !ok { return; }
      DeletedKeepsStored(snapshots.rows, chunks, vectorDB.points, input, embedder.server.model, embedder.maxInputChars);
      ActivationEffect(snapshots.rows, input.project, input.branch, input.snapshot);
      ok := Run(input);
    }
  }

  // ----- Every active snapshot is stored

  ghost predicate AllStored(rows: map<SnapshotId, Snapshot>, chunks: seq<Chunk>, points: seq<Point>,
                            model: string -> Vector, maxChars: nat)
  {
    forall c :: c in chunks && c.snapshot in rows && rows[c.snapshot].active ==>
      HasOnePoint(c, points, rows[c.snapshot].project, rows[c.snapshot].branch, model, maxChars)
  }

  /** The snapshot is not active, and has no chunks that an earlier attempt left behind. */
  ghost predicate Vacant(rows: map<SnapshotId, Snapshot>, chunks: seq<Chunk>, input: Input) {
    && (input.snapshot in rows ==> rows[input.snapshot] == Snapshot(input.project, input.branch, false))
    && forall c :: c in chunks ==> c.snapshot != input.snapshot
  }

  /** Points added later have later ids. */
  ghost predicate AddedFrom(before: seq<Point>, after: seq<Point>, firstId: ChunkId) {
    before <= after && forall i :: |before| <= i < |after| ==> after[i].id >= firstId
  }

  lemma StillOnePoint(c: Chunk, before: seq<Point>, after: seq<Point>, project: string, branch: string,
                      model: string -> Vector, maxChars: nat, firstId: ChunkId)
    requires HasOnePoint(c, before, project, branch, model, maxChars) && c.id < firstId && AddedFrom(before, after, firstId)
    ensures HasOnePoint(c, after, project, branch, model, maxChars)
  {
    var j :| OnlyPoint(c, before, j, project, branch, model, maxChars);
    assert OnlyPoint(c, after, j, project, branch, model, maxChars);
  }

  lemma RunKeepsStored(rows: map<SnapshotId, Snapshot>, rowsAfter: map<SnapshotId, Snapshot>,
                       chunks: seq<Chunk>, chunksAfter: seq<Chunk>, points: seq<Point>, pointsAfter: seq<Point>,
                       input: Input, model: string -> Vector, maxChars: nat, firstId: ChunkId, nextId: ChunkId, ok: bool)
    requires AllStored(rows, chunks, points, model, maxChars) && Vacant(rows, chunks, input)
    requires chunks <= chunksAfter && (forall i :: 0 <= i < |chunks| ==> chunks[i].id < firstId)
    requires NewSince(chunks, chunksAfter, input.snapshot, firstId, nextId) && AddedFrom(points, pointsAfter, firstId)
    requires !ok ==> rowsAfter == rows
    requires ok ==> rowsAfter == Activated(Deactivated(rows, input.project, input.branch), input.snapshot)
    requires ok ==> OnePointEach(chunksAfter[|chunks|..], pointsAfter, input.project, input.branch, model, maxChars)
    ensures AllStored(rowsAfter, chunksAfter, pointsAfter, model, maxChars)
  {
    hide HasOnePoint, AddedFrom;
    forall c | c in chunksAfter && c.snapshot in rowsAfter && rowsAfter[c.snapshot].active
      ensures HasOnePoint(c, pointsAfter, rowsAfter[c.snapshot].project, rowsAfter[c.snapshot].branch, model, maxChars)
    {
      var i :| 0 <= i < |chunksAfter| && chunksAfter[i] == c;
      if i < |chunks| {
        assert chunks[i] == c;
        StillOnePoint(c, points, pointsAfter, rows[c.snapshot].project, rows[c.snapshot].branch, model, maxChars, firstId);
      } else {
        assert ok && c == chunksAfter[|chunks|..][i - |chunks|];
      }
    }
  }

  lemma CreatedKeepsStored(rows: map<SnapshotId, Snapshot>, chunks: seq<Chunk>, points: seq<Point>, input: Input,
                           model: string -> Vector, maxChars: nat)
    requires AllStored(rows, chunks, points, model, maxChars)
    ensures AllStored(Created(rows, input.project, input.branch, input.snapshot), chunks, points, model, maxChars)
  {
  }

  lemma DeletedKeepsStored(rows: map<SnapshotId, Snapshot>, chunks: seq<Chunk>, points: seq<Point>, input: Input,
                           model: string -> Vector, maxChars: nat)
    requires AllStored(rows, chunks, points, model, maxChars)
    requires input.snapshot in rows ==> rows[input.snapshot] == Snapshot(input.project, input.branch, false)
    ensures AllStored(rows, Without(chunks, input.snapshot), points, model, maxChars)
    ensures Vacant(rows, Without(chunks, input.snapshot), input)
  {
    WithoutMeaning(chunks, input.snapshot);
  }

  /** Starting over for the commit that is indexed already takes its snapshot out of service, so if
      the attempt fails the branch is left without an active one. */
  lemma CreatedEffect(rows: map<SnapshotId, Snapshot>, project: string, branch: string, id: SnapshotId)
    requires id in rows ==> rows[id].project == project && rows[id].branch == branch
    ensures ActiveOn(Created(rows, project, branch, id), project, branch) == ActiveOn(rows, project, branch) - {id}
    ensures forall p, b :: p != project || b != branch ==> ActiveOn(Created(rows, project, branch, id), p, b) == ActiveOn(rows, p, b)
  {
  }

  ghost predicate IdsBelow(points: seq<Point>, id: ChunkId) {
    forall i :: 0 <= i < |points| ==> points[i].id < id
  }

  lemma PrefixGrows(before: seq<Point>, points: seq<Point>, start: nat, end: nat, k: nat)
    requires start <= end <= |points| && k <= end - start
    ensures before + points[..start] + points[start..end][..k] == before + points[..start + k]
    ensures points[start..end][..end - start] == points[start..end]
  {
    assert points[..start] + points[start..end][..k] == points[..start + k];
  }

  lemma StillBelow(points: seq<Point>, before: seq<Chunk>, after: seq<Chunk>, snapshot: SnapshotId, firstId: ChunkId, nextId: ChunkId)
    requires IdsBelow(points, firstId) && NewSince(before, after, snapshot, firstId, nextId)
    ensures IdsBelow(points, nextId)
  {
  }

  lemma AddedBelow(points: seq<Point>, added: seq<Point>, k: nat, firstId: ChunkId, id: ChunkId)
    requires IdsBelow(points, id) && IdsBelow(added, id) && AddedFrom([], added, firstId) && k <= |added|
    ensures IdsBelow(points + added[..k], id) && AddedFrom(points, points + added[..k], firstId)
  {
  }

  lemma NoPoints(points: seq<Point>, project: string, branch: string, model: string -> Vector, maxChars: nat)
    ensures points + PointsOf([], project, branch, model, maxChars) == points
  {
  }

  /** The run's chunks are those of its files in order, and exactly their points were added. */
  ghost predicate EverythingStored(input: Input, chunksBefore: seq<Chunk>, chunksAfter: seq<Chunk>,
                                   pointsBefore: seq<Point>, pointsAfter: seq<Point>, model: string -> Vector, maxChars: nat)
  {
    chunksBefore <= chunksAfter &&
    var written := chunksAfter[|chunksBefore|..];
    && ChunksOfAll(written, input.files)
    && pointsAfter == pointsBefore + PointsOf(written, input.project, input.branch, model, maxChars)
  }

  /** The longest start of the text that is not longer than the limit. */
  predicate IsLongestStart(text: string, start: string, maxChars: nat) {
    && start <= text && |start| <= maxChars
    && (start == text || |start| == maxChars)
  }

  /** The `j`-th point of the store is the chunk's own: it carries the chunk's id, place and snapshot and
      the embedding of as much of the content as the model takes. No other has its id. */
  ghost predicate OnlyPoint(c: Chunk, points: seq<Point>, j: int, project: string, branch: string, model: string -> Vector, maxChars: nat) {
    && 0 <= j < |points|
    && points[j].id == c.id && points[j].filePath == c.filePath && points[j].snapshot == c.snapshot
    && points[j].project == project && points[j].branch == branch
    && (exists start :: IsLongestStart(c.content, start, maxChars) && points[j].vector == model(start))
    && forall i :: 0 <= i < |points| && points[i].id == c.id ==> i == j
  }

  ghost predicate HasOnePoint(c: Chunk, points: seq<Point>, project: string, branch: string, model: string -> Vector, maxChars: nat) {
    exists j :: OnlyPoint(c, points, j, project, branch, model, maxChars)
  }

  /** Each chunk has exactly one point in the whole store, with its id and the embedding of its truncated text. */
  ghost predicate OnePointEach(chunks: seq<Chunk>, points: seq<Point>, project: string, branch: string, model: string -> Vector, maxChars: nat) {
    forall i :: 0 <= i < |chunks| ==> HasOnePoint(chunks[i], points, project, branch, model, maxChars)
  }

  /** Fresh ids make the added points the only ones of their chunks. */
  lemma ExactlyOnePoint(chunks: seq<Chunk>, before: seq<Point>, firstId: ChunkId, project: string, branch: string, model: string -> Vector, maxChars: nat, i: nat)
    requires DistinctIds(chunks) && i < |chunks|
    requires IdsBelow(before, firstId) && forall k :: 0 <= k < |chunks| ==> chunks[k].id >= firstId
    ensures OnlyPoint(chunks[i], before + PointsOf(chunks, project, branch, model, maxChars), |before| + i, project, branch, model, maxChars)
  {
    var added := PointsOf(chunks, project, branch, model, maxChars);
    var points := before + added;
    assert points[|before| + i] == added[i] == PointOf(chunks[i], project, branch, model, maxChars);
    TruncateMeaning(chunks[i].content, maxChars);
    forall k | 0 <= k < |points| && points[k].id == chunks[i].id
      ensures k == |before| + i
    {
      if k >= |before| {
        assert points[k] == added[k - |before|];
      }
    }
  }

  lemma StoredOnce(input: Input, chunksBefore: seq<Chunk>, chunksAfter: seq<Chunk>, before: seq<Point>, after: seq<Point>,
                   model: string -> Vector, maxChars: nat, firstId: ChunkId)
    requires EverythingStored(input, chunksBefore, chunksAfter, before, after, model, maxChars)
    requires DistinctIds(chunksAfter) && IdsBelow(before, firstId)
    requires forall i :: |chunksBefore| <= i < |chunksAfter| ==> chunksAfter[i].id >= firstId
    ensures OnePointEach(chunksAfter[|chunksBefore|..], after, input.project, input.branch, model, maxChars)
  {
    var written := chunksAfter[|chunksBefore|..];
    assert DistinctIds(written);
    hide PointsOf, OnlyPoint, ChunksOfAll;
    forall i | 0 <= i < |written|
      ensures HasOnePoint(written[i], after, input.project, input.branch, model, maxChars)
    {
      ExactlyOnePoint(written, before, firstId, input.project, input.branch, model, maxChars, i);
    }
  }
}
