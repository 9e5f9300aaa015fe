/**
 * The buffer loops that move bytes between streams and files.
 *
 * A read on a socket or a file stream, InputStream.read(buffer, 0, len),
 * returns any number of bytes from 1 to len while bytes remain and -1 once
 * the peer has closed the stream; which count it returns is not under the
 * program's control, so the model chooses it arbitrarily. Whatever the
 * counts, a loop that reads a declared number of bytes ends with exactly the
 * `Transfer` result.
 */
module ChunkedIO {
  import opened DataStreams

  function Min(a: int, b: int): int {
    if a <= b then a else b
  }

  function Sum(s: seq<nat>): nat {
    if s == [] then 0 else Sum(s[..|s| - 1]) + s[|s| - 1]
  }

  /** InputStream.read(buffer, 0, len) on the bytes `src` still to come: the count, or -1 at end of stream. */
  method Read(src: Bytes, len: nat) returns (n: int)
    requires len >= 1
    ensures n == -1 <==> src == []
    ensures n != -1 ==> 1 <= n <= len && n <= |src|
  {
    if src == [] {
      n := -1;
    } else {
      n :| 1 <= n <= len && n <= |src|;
    }
  }

  /**
   * The outcome of reading `count` bytes: the bytes read, the bytes left
   * behind on the stream, and whether the count was reached. An incomplete
   * copy is one where the stream ended first; in the source the read then
   * returns -1 and the following write(buffer, 0, -1) throws.
   */
  datatype Copy = Copy(data: Bytes, rest: Bytes, complete: bool)

  function Transfer(src: Bytes, count: int): (c: Copy)
    ensures c.data + c.rest == src
    ensures c.complete <==> count <= |src|
    ensures c.complete ==> |c.data| == if count <= 0 then 0 else count
    ensures !c.complete ==> c.rest == []
  {
    if count <= 0 then Copy([], src, true)
    else if count <= |src| then Copy(src[..count], src[count..], true)
    else Copy(src, [], false)
  }

  /**
   * The bounded loops of receiveFile, distributeFile and assembleFile: while
   * fewer than `count` bytes have been copied, ask the stream for at most one
   * buffer and at most what is still owed, write what the read returned, and
   * add it to the total. `steps` are the successive read counts.
   */
  method CopyExactly(src: Bytes, count: int, chunkSize: nat) returns (c: Copy, steps: seq<nat>)
    requires chunkSize >= 1
    ensures c == Transfer(src, count)
    ensures Sum(steps) == |c.data|
    ensures ReadsWithin(steps, chunkSize, count)
  {
    var done := 0;
    var data: Bytes := [];
    var rest := src;
    steps := [];
    while done < count
      invariant 0 <= done <= |src| && (count > 0 ==> done <= count)
      invariant data == src[..done] && rest == src[done..]
      invariant Sum(steps) == done
      invariant ReadsWithin(steps, chunkSize, count)
      decreases count - done
    {
      var n := Read(rest, Min(chunkSize, count - done));
      if n == -1 {
        c := Copy(data, rest, false);
        return;
      }
      ReadsWithinAppend(steps, n, chunkSize, count);
      steps := steps + [n];
      data := data + rest[..n];
      rest := rest[n..];
      done := done + n;
      assert data == src[..done];
    }
    c := Copy(data, rest, true);
  }

  /**
   * Every read asked for at most one buffer and at most what was still owed:
   * read j returned between 1 and min(chunkSize, count - bytes read before it).
   */
  predicate ReadsWithin(steps: seq<nat>, chunkSize: nat, count: int) {
    steps == [] ||
    (var before := steps[..|steps| - 1];
     ReadsWithin(before, chunkSize, count) && 1 <= steps[|steps| - 1] <= Min(chunkSize, count - Sum(before)))
  }

  lemma ReadsWithinAppend(steps: seq<nat>, n: nat, chunkSize: nat, count: int)
    requires ReadsWithin(steps, chunkSize, count)
    requires 1 <= n <= Min(chunkSize, count - Sum(steps))
    ensures ReadsWithin(steps + [n], chunkSize, count)
  {
    assert (steps + [n])[..|steps|] == steps;
  }

  /**
   * The unbounded loops of sendFile and sendFileInChunks: read up to one
   * buffer of the file and write what was read, until the read reports the
   * end of the file. Every byte is forwarded, in order.
   */
  method PumpToEnd(content: Bytes, chunkSize: nat) returns (out: Bytes, steps: seq<nat>)
    requires chunkSize >= 1
    ensures out == content
    ensures Sum(steps) == |content|
    ensures forall j :: 0 <= j < |steps| ==> 1 <= steps[j] <= chunkSize
  {
    out := [];
    steps := [];
    var rest := content;
    var n := Read(rest, chunkSize);
    while n != -1
      invariant out + rest == content
      invariant Sum(steps) == |out|
      invariant forall j :: 0 <= j < |steps| ==> 1 <= steps[j] <= chunkSize
      invariant n == -1 <==> rest == []
      invariant n != -1 ==> 1 <= n <= chunkSize && n <= |rest|
      decreases |rest|
    {
      assert (steps + [n])[..|steps|] == steps;
      steps := steps + [n];
      out := out + rest[..n];
      assert out + rest[n..] == content;
      rest := rest[n..];
      n := Read(rest, chunkSize);
    }
  }
}
