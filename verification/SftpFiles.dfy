/** Files in chunks: `write_exclusive` and `read` of the native filesystem. */
module SftpFiles {
  import opened Basics

  const SFTP_CHUNK := 32 * 1024
  const MAX_FILE_SIZE := 1024 * 1024

  datatype Reply = Data(bytes: Bytes) | Eof | Failed(error: DeployError)

  /** An open file on the server. An honest server answers a read with some of
      the bytes at that offset, as many as it likes but at least one, and with
      none or the end of file behind the last; one that is not may answer
      anything. A broken connection may fail any request. */
  class Handle {
    var content: Bytes
    const honest: bool
    const broken: bool

    constructor (initial: Bytes, isHonest: bool, isBroken: bool)
      ensures content == initial && honest == isHonest && broken == isBroken
    {
      content := initial;
      honest := isHonest;
      broken := isBroken;
    }

    method Write(offset: nat, chunk: Bytes) returns (r: Result<()>)
      requires offset <= |content| && 0 < |chunk| <= SFTP_CHUNK
      modifies this
      ensures r.Ok? ==>
        content == old(content)[..offset] + chunk +
          (if offset + |chunk| <= |old(content)| then old(content)[offset + |chunk|..] else [])
      ensures !broken ==> r.Ok?
    {
      if broken {
        var lost: bool := *;
        if lost {
          return Err(Unavailable);
        }
      }
      content := content[..offset] + chunk +
        (if offset + |chunk| <= |content| then content[offset + |chunk|..] else []);
      return Ok(());
    }

    method Read(offset: nat, length: nat) returns (reply: Reply)
      requires length > 0
      ensures honest && reply.Data? ==>
        offset <= |content| && reply.bytes <= content[offset..] && (reply.bytes == [] ==> offset == |content|)
      ensures honest && reply.Eof? ==> offset >= |content|
      ensures !broken ==> !reply.Failed?
    {
      if broken {
        var lost: bool := *;
        if lost {
          return Failed(Unavailable);
        }
      }
      if !honest {
        var bytes: Bytes := *;
        return Data(bytes);
      }
      if offset >= |content| {
        return Eof;
      }
      var n: nat :| 0 < n <= |content| - offset;
      return Data(content[offset..offset + n]);
    }
  }

  /** Uploads in consecutive chunks. */
  method WriteChunks(handle: Handle, bytes: Bytes) returns (r: Result<()>)
    requires handle.content == []
    modifies handle
    ensures r.Ok? ==> handle.content == bytes
    ensures !handle.broken ==> r.Ok?
  {
    var index := 0;
    while index * SFTP_CHUNK < |bytes|
      invariant 0 <= index
      invariant handle.content == bytes[..if index * SFTP_CHUNK < |bytes| then index * SFTP_CHUNK else |bytes|]
      decreases |bytes| - index * SFTP_CHUNK
    {
      var start := index * SFTP_CHUNK;
      var end := if start + SFTP_CHUNK < |bytes| then start + SFTP_CHUNK else |bytes|;
      var written :- handle.Write(start, bytes[start..end]);
      assert bytes[..start] + bytes[start..end] == bytes[..end];
      index := index + 1;
    }
    assert bytes[..|bytes|] == bytes;
    return Ok(());
  }

  /** Downloads until the end of file, within the size limit whatever the
      server sends. */
  method ReadChunks(handle: Handle) returns (r: Result<Bytes>)
    ensures r.Ok? ==> |r.value| <= MAX_FILE_SIZE
    ensures handle.honest && r.Ok? ==> r.value == handle.content
    ensures handle.honest && !handle.broken ==>
      r == if |handle.content| <= MAX_FILE_SIZE then Ok(handle.content) else Err(UnsafeState)
  {
    var bytes := [];
    while true
      invariant |bytes| <= MAX_FILE_SIZE
      invariant handle.honest ==> bytes <= handle.content
      decreases MAX_FILE_SIZE - |bytes|
    {
      var reply := handle.Read(|bytes|, SFTP_CHUNK);
      match reply {
        case Data(data) =>
          if data == [] {
            return Ok(bytes);
          }
          if |bytes| + |data| > MAX_FILE_SIZE {
            return Err(UnsafeState);
          }
          bytes := bytes + data;
        case Eof =>
          return Ok(bytes);
        case Failed(error) =>
          return Err(error);
      }
    }
  }

  /** Whatever was uploaded comes back, however the server splits the reads. */
  method RoundTrip(bytes: Bytes, dependable: bool) returns (written: Result<()>, read: Result<Bytes>)
    ensures written.Ok? && read.Ok? ==> read.value == bytes
    ensures dependable ==> written.Ok? && (read.Ok? <==> |bytes| <= MAX_FILE_SIZE)
  {
    var handle := new Handle([], true, !dependable);
    written := WriteChunks(handle, bytes);
    read := ReadChunks(handle);
    if written.Err? {
      read := Err(Unavailable);
    }
  }
}
