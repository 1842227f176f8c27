/** Copying a file from a guest in chunks: the guest's reads (guest/src/file_ops.rs, guest/src/service.rs) and the
    host's loop over them (host/src/scenarios/orchestrator.ts). */
module FileTransfer {
  import opened Utf

  const MAX_READ_SIZE: nat := 100 * 1024 * 1024
  const READ_CHUNK_SIZE: nat := 64 * 1024
  const U64_MAX: nat := 0xFFFF_FFFF_FFFF_FFFF

  function Min(a: nat, b: nat): nat { if a <= b then a else b }

  // ----- Reading -----

  /** One `read` call at position `pos`: some of the bytes there, at least one unless the file has ended. */
  method ReadSome(content: Bytes, pos: nat, room: nat) returns (n: nat)
    requires room > 0
    ensures n <= room && (n > 0 ==> pos + n <= |content|)
    ensures n == 0 <==> pos >= |content|
  {
    if pos >= |content| {
      n := 0;
    } else {
      n :| 1 <= n <= room && pos + n <= |content|;
    }
  }

  /** What `read_file` may return for a limit: everything up to the cap for zero, otherwise one `read`'s worth. */
  ghost predicate IsRead(content: Bytes, offset: nat, limit: nat, data: Bytes) {
    && (data != [] ==> offset + |data| <= |content| && data == content[offset..offset + |data|])
    && (data == [] ==> offset >= |content|)
    && |data| <= 104_857_600 && (limit > 0 ==> |data| <= limit)
    && (limit == 0 && offset < |content| ==> |data| == Min(104_857_600, |content| - offset))
  }

  /** `file_ops::read_file` */
  method ReadFile(content: Bytes, offset: nat, limit: nat) returns (data: Bytes)
    ensures IsRead(content, offset, limit, data)
  {
    if limit == 0 {
      data := [];
      while |data| < MAX_READ_SIZE
        invariant |data| <= MAX_READ_SIZE
        invariant data != [] ==> offset + |data| <= |content| && data == content[offset..offset + |data|]
        decreases MAX_READ_SIZE - |data|
      {
        var toRead := Min(MAX_READ_SIZE - |data|, READ_CHUNK_SIZE);
        var n := ReadSome(content, offset + |data|, toRead);
        if n == 0 {
          break;
        }
        data := data + content[offset + |data|..offset + |data| + n];
      }
    } else {
      var clamped := Min(limit, MAX_READ_SIZE);
      var n := ReadSome(content, offset, clamped);
      data := if n == 0 then [] else content[offset..offset + n];
    }
  }

  /** The `read_file` RPC. `known` says whether the file's length could be determined. */
  method ReadFileRpc(content: Bytes, offset: nat, limit: nat, known: bool) returns (data: Bytes, truncated: bool)
    requires |content| <= U64_MAX && offset <= U64_MAX
    ensures IsRead(content, offset, limit, data)
    ensures truncated <==> known && offset + |data| < |content|
  {
    data := ReadFile(content, offset, limit);
    truncated := known && Min(offset + |data|, U64_MAX) < |content|;
  }

  function Concat(chunks: seq<Bytes>): Bytes {
    if chunks == [] then [] else Concat(chunks[..|chunks| - 1]) + chunks[|chunks| - 1]
  }

  /** `copyFileFromGuest`; `known` says of each chunk whether the guest could tell the file's length then. Whatever the
      limit and however short the reads, the chunks follow each other in the file, and a chunk follows another only if
      the length was known there. So the copy is whole unless it stopped short at a chunk where it was not. */
  method CopyFileFromGuest(content: Bytes, limit: nat, known: nat -> bool) returns (host: Bytes, chunks: seq<Bytes>)
    requires |content| <= U64_MAX
    ensures host == Concat(chunks) && host <= content
    ensures forall i :: 0 <= i < |chunks| ==> chunks[i] != []
    ensures forall i :: 0 <= i < |chunks| - 1 ==> known(i)
    ensures host != content ==> chunks != [] && !known(|chunks| - 1)
    ensures (forall i :: known(i)) ==> host == content
  {
    host, chunks := [], [];
    var offset := 0;
    while true
      invariant offset == |host| <= |content| && host == content[..offset] == Concat(chunks)
      invariant forall i :: 0 <= i < |chunks| ==> chunks[i] != [] && known(i)
      decreases |content| - offset
    {
      var data, truncated := ReadFileRpc(content, offset, limit, known(|chunks|));
      if data == [] {
        break;
      }
      assert (chunks + [data])[..|chunks|] == chunks;
      host, chunks := host + data, chunks + [data];
      offset := offset + |data|;
      if !truncated {
        break;
      }
    }
  }
}
