/**
 The file service (services/file_service/src/FileServiceImpl.cpp:59-220): the files_ map and the
 directory of stored files, under whole uploads, downloads and deletions.
 */
module FileStoreSpec {

  type Bytes = seq<int>

  const STREAM_CHUNK_SIZE: nat := 64 * 1024

  datatype UploadChunk = UploadChunk(fileName: string, ownerId: string, data: Bytes, declaredSize: int, last: bool)

  datatype DownloadChunk = DownloadChunk(data: Bytes, last: bool)

  datatype StoredFile = StoredFile(owner: string, name: string, size: int, deleted: bool)

  datatype Status = OK | INVALID_ARGUMENT | NOT_FOUND | PERMISSION_DENIED

  /** The map and, by file id, what is on disk. */
  datatype State = State(files: map<string, StoredFile>, disk: map<string, Bytes>)

  const EMPTY := State(map[], map[])

  function Content(chunks: seq<UploadChunk>): Bytes {
    if chunks == [] then [] else Content(chunks[..|chunks| - 1]) + chunks[|chunks| - 1].data
  }

  /** The last positive declared size, or -1. */
  function Declared(chunks: seq<UploadChunk>): int {
    if chunks == [] then -1
    else
      var d := chunks[|chunks| - 1].declaredSize;
      if d > 0 then d else Declared(chunks[..|chunks| - 1])
  }

  predicate AnyLast(chunks: seq<UploadChunk>) {
    exists i :: 0 <= i < |chunks| && chunks[i].last
  }

  predicate Complete(chunks: seq<UploadChunk>) {
    && chunks != [] && chunks[0].fileName != "" && chunks[0].ownerId != ""
    && AnyLast(chunks)
    && (Declared(chunks) < 0 || Declared(chunks) == |Content(chunks)|)
  }

  predicate Live(s: State, id: string) {
    id in s.files && !s.files[id].deleted
  }

  function UploadTo(s: State, id: string, chunks: seq<UploadChunk>): State {
    if !Complete(chunks) then s
    else
      var c := Content(chunks);
      State(s.files[id := StoredFile(chunks[0].ownerId, chunks[0].fileName, |c|, false)], s.disk[id := c])
  }

  function DeleteStatus(s: State, id: string, requester: string): Status {
    if id == "" then INVALID_ARGUMENT
    else if !Live(s, id) then NOT_FOUND
    else if requester != "" && requester != s.files[id].owner then PERMISSION_DENIED
    else OK
  }

  function DeleteFrom(s: State, id: string, requester: string): State {
    if DeleteStatus(s, id, requester) != OK then s
    else State(s.files[id := s.files[id].(deleted := true)], s.disk - {id})
  }

  /** The download stream: full blocks, the last one flagged. */
  function Blocks(data: Bytes): seq<DownloadChunk>
    decreases |data|
  {
    if data == [] then []
    else if |data| <= STREAM_CHUNK_SIZE then [DownloadChunk(data, true)]
    else [DownloadChunk(data[..STREAM_CHUNK_SIZE], false)] + Blocks(data[STREAM_CHUNK_SIZE..])
  }

  datatype Op = Upload(id: string, chunks: seq<UploadChunk>) | Delete(id: string, requester: string)

  function Apply(s: State, op: Op): State {
    match op
    case Upload(id, chunks) => UploadTo(s, id, chunks)
    case Delete(id, requester) => DeleteFrom(s, id, requester)
  }

  /** Generated ids are new. */
  predicate Allowed(s: State, op: Op) {
    op.Upload? ==> op.id !in s.files && op.id != ""
  }

  predicate Possible(s: State, ops: seq<Op>)
    decreases |ops|
  {
    ops != [] ==> Allowed(s, ops[0]) && Possible(Apply(s, ops[0]), ops[1..])
  }

  function Run(s: State, ops: seq<Op>): State
    decreases |ops|
  {
    if ops == [] then s else Run(Apply(s, ops[0]), ops[1..])
  }
}

module FileStoreProperties {
  import opened FileStoreSpec

  /** The disk holds exactly the live entries, each with its recorded size. */
  ghost predicate Inv(s: State) {
    && (forall id :: id in s.disk <==> Live(s, id))
    && (forall id :: id in s.disk ==> |s.disk[id]| == s.files[id].size)
    && "" !in s.files
  }

  lemma {:induction false} RunInv(s: State, ops: seq<Op>)
    requires Inv(s) && Possible(s, ops)
    ensures Inv(Run(s, ops))
    decreases |ops|
  {
    if ops != [] {
      RunInv(Apply(s, ops[0]), ops[1..]);
    }
  }

  predicate Deletes(s: State, op: Op, id: string) {
    op.Delete? && op.id == id && DeleteStatus(s, id, op.requester) == OK
  }

  /** Some step of the run deletes the entry. */
  predicate DeletedIn(s: State, ops: seq<Op>, id: string)
    decreases |ops|
  {
    ops != [] && (Deletes(s, ops[0], id) || DeletedIn(Apply(s, ops[0]), ops[1..], id))
  }

  /** An entry stays as it is until a successful delete, and then stays deleted. */
  lemma {:induction false} EntryFate(s: State, ops: seq<Op>, id: string)
    requires Inv(s) && Possible(s, ops) && id in s.files
    ensures id in Run(s, ops).files
    ensures Live(Run(s, ops), id) <==> Live(s, id) && !DeletedIn(s, ops, id)
    ensures Live(Run(s, ops), id) ==>
              && Live(s, id) && Run(s, ops).files[id] == s.files[id]
              && id in s.disk && id in Run(s, ops).disk && Run(s, ops).disk[id] == s.disk[id]
    ensures s.files[id].deleted ==> !Live(Run(s, ops), id)
    decreases |ops|
  {
    RunInv(s, ops);
    if ops != [] {
      var t := Apply(s, ops[0]);
      RunInv(s, [ops[0]]);
      assert [ops[0]][1..] == [] && Run(s, [ops[0]]) == t;
      EntryFate(t, ops[1..], id);
    }
  }

  /** After a successful delete the id answers NOT_FOUND for good. */
  lemma DeletedForever(s: State, id: string, requester: string, ops: seq<Op>, again: string)
    requires Inv(s) && DeleteStatus(s, id, requester) == OK && Possible(DeleteFrom(s, id, requester), ops)
    ensures var t := Run(DeleteFrom(s, id, requester), ops);
            !Live(t, id) && DeleteStatus(t, id, again) == NOT_FOUND
  {
    var d := DeleteFrom(s, id, requester);
    RunInv(s, [Delete(id, requester)]);
    assert [Delete(id, requester)][1..] == [] && Run(s, [Delete(id, requester)]) == d;
    EntryFate(d, ops, id);
  }

  /** As long as a file is live, its owner may delete it, and so may a request without a name, but nobody
      else. */
  lemma OwnerDeletes(s: State, id: string, chunks: seq<UploadChunk>, ops: seq<Op>, requester: string)
    requires Inv(s) && Complete(chunks) && Possible(s, [Upload(id, chunks)] + ops)
    requires Live(Run(s, [Upload(id, chunks)] + ops), id)
    ensures DeleteStatus(Run(s, [Upload(id, chunks)] + ops), id, requester) ==
            if requester in {"", chunks[0].ownerId} then OK else PERMISSION_DENIED
  {
    hide Complete;
    var all := [Upload(id, chunks)] + ops;
    var t := UploadTo(s, id, chunks);
    assert all[1..] == ops && Possible(t, ops) && Run(s, all) == Run(t, ops);
    assert Possible(s, [Upload(id, chunks)]) && Run(s, [Upload(id, chunks)]) == t by {
      assert [Upload(id, chunks)][1..] == [];
    }
    RunInv(s, [Upload(id, chunks)]);
    UploadedOwner(s, id, chunks);
    EntryFate(t, ops, id);
  }

  lemma UploadedOwner(s: State, id: string, chunks: seq<UploadChunk>)
    requires Complete(chunks)
    ensures var t := UploadTo(s, id, chunks); id in t.files && t.files[id].owner == chunks[0].ownerId
  {
  }

  /** `d` is the last size the stream declares. */
  predicate LastDeclared(chunks: seq<UploadChunk>, i: nat) {
    i < |chunks| && chunks[i].declaredSize > 0 && forall j :: i < j < |chunks| ==> chunks[j].declaredSize <= 0
  }

  lemma {:induction false} DeclaredExactly(chunks: seq<UploadChunk>)
    ensures forall i: nat :: LastDeclared(chunks, i) ==> Declared(chunks) == chunks[i].declaredSize
    ensures Declared(chunks) == -1 || exists i: nat :: LastDeclared(chunks, i)
    ensures Declared(chunks) == -1 || Declared(chunks) > 0
    decreases |chunks|
  {
    if chunks != [] {
      var n := |chunks| - 1;
      var front := chunks[..n];
      DeclaredExactly(front);
      if chunks[n].declaredSize > 0 {
        assert LastDeclared(chunks, n);
      } else {
        forall i: nat
          ensures LastDeclared(chunks, i) <==> LastDeclared(front, i)
        {
          assert i < n ==> front[i] == chunks[i];
          assert LastDeclared(front, i) ==> forall j :: i < j < n ==> chunks[j] == front[j];
        }
      }
    }
  }

  /** An upload is stored exactly when it names a file and an owner, some chunk is flagged last, and the last
      size it declares, if any, is the number of bytes that came. */
  lemma CompleteExactly(chunks: seq<UploadChunk>)
    ensures Complete(chunks) <==>
              && chunks != [] && chunks[0].fileName != "" && chunks[0].ownerId != ""
              && (exists i :: 0 <= i < |chunks| && chunks[i].last)
              && forall i: nat :: LastDeclared(chunks, i) ==> chunks[i].declaredSize == |Content(chunks)|
  {
    DeclaredExactly(chunks);
  }

  function Joined(blocks: seq<DownloadChunk>): Bytes {
    if blocks == [] then [] else blocks[0].data + Joined(blocks[1..])
  }

  /** The blocks of a file: its bytes, full blocks except perhaps the last, flagged last once, at the end. */
  lemma {:induction false} BlocksGood(data: Bytes)
    ensures var bs := Blocks(data);
            && Joined(bs) == data
            && (data == [] <==> bs == [])
            && (forall i :: 0 <= i < |bs| ==> bs[i].last == (i == |bs| - 1))
            && (forall i :: 0 <= i < |bs| ==> 0 < |bs[i].data| <= 65536)
            && (forall i :: 0 <= i < |bs| - 1 ==> |bs[i].data| == 65536)
    decreases |data|
  {
    if 0 < |data| <= STREAM_CHUNK_SIZE {
      assert Blocks(data)[1..] == [];
    } else if data != [] {
      BlocksGood(data[STREAM_CHUNK_SIZE..]);
      assert Blocks(data)[1..] == Blocks(data[STREAM_CHUNK_SIZE..]);
      assert data == data[..STREAM_CHUNK_SIZE] + data[STREAM_CHUNK_SIZE..];
    }
  }

  /** A complete upload is downloaded byte for byte as long as it is live, whatever else happens. */
  lemma UploadedIsDownloaded(s: State, id: string, chunks: seq<UploadChunk>, ops: seq<Op>)
    requires Inv(s) && Complete(chunks) && Possible(s, [Upload(id, chunks)] + ops)
    requires Live(Run(s, [Upload(id, chunks)] + ops), id)
    ensures var t := Run(s, [Upload(id, chunks)] + ops);
            id in t.disk && Joined(Blocks(t.disk[id])) == Content(chunks) && t.files[id].size == |Content(chunks)|
  {
    var u := UploadTo(s, id, chunks);
    assert ([Upload(id, chunks)] + ops)[1..] == ops;
    RunInv(s, [Upload(id, chunks)]);
    assert [Upload(id, chunks)][1..] == [] && Run(s, [Upload(id, chunks)]) == u;
    EntryFate(u, ops, id);
    RunInv(u, ops);
    BlocksGood(Content(chunks));
  }
}

module FileServiceClass {
  import opened FileStoreSpec

  class FileService {
    var files: map<string, StoredFile>
    var disk: map<string, Bytes>

    constructor ()
      ensures Abs() == EMPTY
    {
      files, disk := map[], map[];
    }

    ghost function Abs(): State
      reads this
    {
      State(files, disk)
    }

    /** Upload under the new id: bytes go to disk as they come, and the file is removed again unless the
        stream was complete. */
    method Upload(id: string, chunks: seq<UploadChunk>) returns (status: Status, size: nat)
      requires id !in files && id !in disk
      modifies this
      ensures status == if Complete(chunks) then OK else INVALID_ARGUMENT
      ensures Abs() == UploadTo(old(Abs()), id, chunks)
      ensures status == OK ==> size == |Content(chunks)|
    {
      ghost var before := disk;
      size := 0;
      if chunks == [] || chunks[0].fileName == "" || chunks[0].ownerId == "" {
        return INVALID_ARGUMENT, 0;
      }
      disk := disk[id := []];
      var lastSeen := false;
      var declared := -1;
      var i := 0;
      while i < |chunks|
        invariant 0 <= i <= |chunks| && files == old(files)
        invariant disk == before[id := Content(chunks[..i])] && size == |Content(chunks[..i])|
        invariant declared == Declared(chunks[..i])
        invariant lastSeen == AnyLast(chunks[..i])
      {
        assert chunks[..i + 1][..i] == chunks[..i];
        var c := chunks[i];
        disk := disk[id := disk[id] + c.data];
        size := size + |c.data|;
        if c.declaredSize > 0 {
          declared := c.declaredSize;
        }
        if c.last {
          lastSeen := true;
        }
        assert AnyLast(chunks[..i + 1]) == (AnyLast(chunks[..i]) || c.last) by { LastPlus(chunks, i); }
        i := i + 1;
      }
      assert chunks[..i] == chunks;
      if !lastSeen || (declared >= 0 && declared != size) {
        disk := disk - {id};
        assert disk == before;
        return INVALID_ARGUMENT, size;
      }
      files := files[id := StoredFile(chunks[0].ownerId, chunks[0].fileName, size, false)];
      return OK, size;
    }

    method Download(id: string) returns (status: Status, sent: seq<DownloadChunk>)
      requires Live(Abs(), id) ==> id in disk
      ensures status == if id == "" then INVALID_ARGUMENT else if Live(Abs(), id) then OK else NOT_FOUND
      ensures sent == if status == OK then Blocks(disk[id]) else []
    {
      sent := [];
      if id == "" {
        return INVALID_ARGUMENT, [];
      }
      if id !in files || files[id].deleted {
        return NOT_FOUND, [];
      }
      var data := disk[id];
      var at := 0;
      assert data[0..] == data;
      while at < |data|
        invariant 0 <= at <= |data| && sent + Blocks(data[at..]) == Blocks(data)
      {
        var n := if |data| - at < STREAM_CHUNK_SIZE then |data| - at else STREAM_CHUNK_SIZE;
        BlockStep(data, at, n);
        sent := sent + [DownloadChunk(data[at..at + n], at + n == |data|)];
        at := at + n;
      }
      return OK, sent;
    }

    method Delete(id: string, requester: string) returns (status: Status)
      modifies this
      ensures status == DeleteStatus(old(Abs()), id, requester)
      ensures status == OK <==>
                id != "" && id in old(files) && !old(files)[id].deleted && requester in {"", old(files)[id].owner}
      ensures Abs() == DeleteFrom(old(Abs()), id, requester)
    {
      if id == "" {
        return INVALID_ARGUMENT;
      }
      if id !in files || files[id].deleted {
        return NOT_FOUND;
      }
      if requester != "" && requester != files[id].owner {
        return PERMISSION_DENIED;
      }
      disk := disk - {id};
      files := files[id := files[id].(deleted := true)];
      return OK;
    }
  }

  lemma LastPlus(chunks: seq<UploadChunk>, i: nat)
    requires i < |chunks|
    ensures AnyLast(chunks[..i + 1]) == (AnyLast(chunks[..i]) || chunks[i].last)
  {
    if AnyLast(chunks[..i]) {
      var k :| 0 <= k < i && chunks[..i][k].last;
      assert chunks[..i + 1][k].last;
    }
    if chunks[i].last {
      assert chunks[..i + 1][i].last;
    }
  }

  lemma BlockStep(data: Bytes, at: nat, n: nat)
    requires at < |data| && n == if |data| - at < STREAM_CHUNK_SIZE then |data| - at else STREAM_CHUNK_SIZE
    ensures Blocks(data[at..]) == [DownloadChunk(data[at..at + n], at + n == |data|)] + Blocks(data[at + n..])
  {
    var rest := data[at..];
    assert rest[..n] == data[at..at + n];
    if |rest| <= STREAM_CHUNK_SIZE {
      assert rest == data[at..at + n];
    } else {
      assert rest[STREAM_CHUNK_SIZE..] == data[at + n..];
    }
  }
}
