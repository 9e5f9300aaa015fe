/**
 * The servers as objects whose directories change in place: a storage node
 * answering one connection at a time, and the coordinator that splits an
 * upload over the nodes, reassembles a download, lists and deletes. Every
 * method is proved against the connection functions of Protocol; the
 * chunked copies go through the loops of ChunkedIO with the configured
 * CHUNK_SIZE.
 */
module Servers {
  import opened Sequences
  import opened Wrappers
  import opened JavaString
  import opened DataStreams
  import opened ChunkedIO
  import opened Fragmentation
  import opened Protocol
  import opened ProtocolProofs
  import ServerConfig

  /**
   * sendFile and sendFileInChunks, which are the same code: "OK", the
   * file's length, then the content pumped through the buffer until the
   * file stream ends.
   */
  method SendFile(content: Bytes) returns (reply: Bytes)
    ensures reply == FileReply(content)
  {
    reply := WriteUtf(Ok()) + WriteLong(|content|);
    var out, _ := PumpToEnd(content, ServerConfig.CHUNK_SIZE);
    reply := reply + out;
  }

  /** A storage node: the directory sub_server_directory_<port>, file name to content. */
  class StorageNode {
    var files: Directory

    constructor(files: Directory)
      ensures this.files == files
    {
      this.files := files;
    }

    /**
     * receiveFile: the file is opened (and so truncated), then fileSize bytes
     * are copied into it chunk by chunk; true when the stream ended first.
     */
    method ReceiveFile(name: string, input: Bytes, fileSize: int) returns (failed: bool)
      modifies this
      ensures files == old(files)[name := Transfer(input, fileSize).data]
      ensures failed <==> fileSize > |input|
    {
      files := files[name := []];
      var c, _ := ChunkedIO.CopyExactly(input, fileSize, ServerConfig.CHUNK_SIZE);
      files := files[name := c.data];
      failed := !c.complete;
    }

    /**
     * One connection of startSubServer's accept loop: the command, then
     * STORE (name, size, bytes) or RETRIEVE (name); anything else is read
     * and dropped. `failed` is an exception that ended the connection.
     */
    method Handle(request: Bytes) returns (reply: Bytes, failed: bool)
      modifies this
      ensures NodeStep(files, reply, failed) == SubServerStep(old(files), request)
    {
      reply, failed := [], true;
      var command := ReadUtf(request);
      if command.None? {
        return;
      }
      var afterCommand := command.value.1;
      if EqualsIgnoreCase(Store(), command.value.0) {
        var name := ReadUtf(afterCommand);
        if name.None? {
          return;
        }
        var size := ReadLong(name.value.1);
        if size.None? || !PlainFileName(name.value.0) {
          return;
        }
        failed := ReceiveFile(name.value.0, size.value.1, size.value.0);
      } else if EqualsIgnoreCase(Retrieve(), command.value.0) {
        var name := ReadUtf(afterCommand);
        if name.None? || DirectoryAlias(name.value.0) {
          return;
        }
        if name.value.0 in files {
          reply := SendFile(files[name.value.0]);
        } else {
          reply := WriteUtf(NotFound());
        }
        failed := false;
      } else {
        failed := false;
      }
    }

    /**
     * The accept loop, serving the connections in turn. A connection that
     * ends in an exception is dropped and the loop goes on: the source's
     * loop has no catch and stops there instead (Protocol.ServeAsWritten).
     */
    method Serve(connections: seq<Bytes>) returns (replies: seq<Bytes>)
      modifies this
      ensures files == Protocol.Serve(old(files), connections).0
      ensures replies == Protocol.Serve(old(files), connections).1
    {
      ghost var start := files;
      replies := [];
      var i := 0;
      assert connections[i..] == connections;
      while i < |connections|
        invariant 0 <= i <= |connections|
        invariant Protocol.Serve(start, connections).0 == Protocol.Serve(files, connections[i..]).0
        invariant Protocol.Serve(start, connections).1 == replies + Protocol.Serve(files, connections[i..]).1
      {
        ghost var before := files;
        var reply, _ := Handle(connections[i]);
        ServeStep(before, connections, i, files, reply);
        ghost var later := Protocol.Serve(files, connections[i + 1..]).1;
        AppendAssociative(replies, [reply], later);
        replies := replies + [reply];
        i := i + 1;
      }
      assert connections[i..] == [];
      assert replies + [] == replies;
    }
  }

  lemma ServeStep(files: Directory, connections: seq<Bytes>, i: nat, after: Directory, reply: Bytes)
    requires i < |connections|
    requires SubServerStep(files, connections[i]).files == after && SubServerStep(files, connections[i]).reply == reply
    ensures Protocol.Serve(files, connections[i..]).0 == Protocol.Serve(after, connections[i + 1..]).0
    ensures Protocol.Serve(files, connections[i..]).1 == [reply] + Protocol.Serve(after, connections[i + 1..]).1
  {
    assert connections[i..][1..] == connections[i + 1..];
  }

  /** A connection whose command is not STORE, in any letter case, never changes the node's files. */
  lemma OnlyStoreWrites(files: Directory, request: Bytes, command: string, rest: Bytes)
    requires ReadUtf(request) == Some((command, rest)) && !EqualsIgnoreCase(Store(), command)
    ensures SubServerStep(files, request).files == files
  {
  }

  /** Asking a node for a file never changes the node's files. */
  lemma RetrieveKeepsFiles(files: Directory, name: string)
    requires Writable(name)
    ensures SubServerStep(files, RetrieveRequest(name)).files == files
  {
    WordsAreWireNames();
    ReadWriteUtf(Retrieve(), WriteUtf(name));
    OnlyStoreWrites(files, RetrieveRequest(name), Retrieve(), WriteUtf(name));
  }

  /** A round of assembleFile whose fragment name cannot be sent fails with what was staged. */
  lemma UnwritableFragment(nodes: seq<Directory>, fileName: string, i: nat, staged: Bytes)
    requires i < |nodes| && !Writable(FragmentName(fileName, i))
    ensures AssembleFrom(nodes, fileName, i, staged) == Failed(staged)
  {
  }

  /** A round of assembleFile whose node answered "OK" and a length: the fragment's bytes are appended. */
  lemma AssembleRound(nodes: seq<Directory>, fileName: string, i: nat, staged: Bytes, afterStatus: Bytes, size: int, payload: Bytes)
    requires i < |nodes| && Writable(FragmentName(fileName, i))
    requires ReadUtf(SubServerStep(nodes[i], RetrieveRequest(FragmentName(fileName, i))).reply) == Some((Ok(), afterStatus))
    requires ReadLong(afterStatus) == Some((size, payload))
    ensures var c := Transfer(payload, size);
      AssembleFrom(nodes, fileName, i, staged) ==
        if c.complete then AssembleFrom(nodes, fileName, i + 1, staged + c.data) else Failed(staged + c.data)
  {
  }

  /** RECEVOIR of a name the staging stream cannot open: no reply and nothing changes. */
  lemma RecevoirRefusedStep(st: State, args: Bytes, fileName: string, rest: Bytes)
    requires ReadUtf(args) == Some((fileName, rest)) && (!st.hasDirectory || !PlainFileName(fileName))
    ensures RecevoirStep(st, args) == Step(st, [])
  {
  }

  /** RECEVOIR once the file is assembled: the reply and the staged copy follow how the assembly ended. */
  lemma RecevoirStepOf(st: State, args: Bytes, fileName: string, rest: Bytes, a: Assembly)
    requires ReadUtf(args) == Some((fileName, rest)) && st.hasDirectory && PlainFileName(fileName)
    requires AssembleFrom(st.nodes, fileName, 0, []) == a
    ensures a.Assembled? ==> RecevoirStep(st, args) == Step(st.(directory := st.directory - {fileName}), FileReply(a.staged))
    ensures a.Missing? ==> RecevoirStep(st, args) == Step(st.(directory := st.directory[fileName := a.staged]), WriteUtf(NotFound()))
    ensures a.Failed? ==> RecevoirStep(st, args) == Step(st.(directory := st.directory[fileName := a.staged]), [])
  {
  }

  /** The loop of listFiles: one writeUTF per name, in the order given. */
  method WriteNames(names: seq<string>) returns (frames: Bytes)
    requires forall k :: 0 <= k < |names| ==> IsWireName(names[k])
    ensures forall k :: 0 <= k < |names| ==> Writable(names[k])
    ensures ReadUtfs(frames) == Some(names)
    ensures frames == WriteUtfs(names)
  {
    ReadWriteUtfs(names);
    frames := [];
    for k := 0 to |names|
      invariant frames == WriteUtfs(names[..k])
    {
      TakeOneMore(names, k);
      WriteUtfsLast(names[..k], names[k]);
      frames := frames + WriteUtf(names[k]);
    }
    assert names[..|names|] == names;
  }

  /**
   * What assembleFile does with node i's reply to RETRIEVE: the status must
   * be "OK" (else the file is missing), then the fragment length, then that
   * many bytes, copied chunk by chunk after the bytes staged so far.
   */
  method ReceiveFragment(ghost files: seq<Directory>, ghost goal: Assembly, fileName: string, i: nat, staged: Bytes, reply: Bytes)
    returns (outcome: Option<Assembly>, more: Bytes)
    requires i < |files| && Writable(FragmentName(fileName, i))
    requires reply == SubServerStep(files[i], RetrieveRequest(FragmentName(fileName, i))).reply
    requires AssembleFrom(files, fileName, i, staged) == goal
    ensures outcome.None? ==> AssembleFrom(files, fileName, i + 1, more) == goal
    ensures outcome.Some? ==> outcome.value == goal && more == goal.staged
  {
    more := staged;
    var status := ReadUtf(reply);
    if status.None? {
      return Some(Failed(staged)), more;
    }
    if status.value.0 != Ok() {
      return Some(Missing(staged)), more;
    }
    var length := ReadLong(status.value.1);
    if length.None? {
      return Some(Failed(staged)), more;
    }
    var c, _ := ChunkedIO.CopyExactly(length.value.1, length.value.0, ServerConfig.CHUNK_SIZE);
    AssembleRound(files, fileName, i, staged, status.value.1, length.value.0, length.value.1);
    more := staged + c.data;
    outcome := if c.complete then None else Some(Failed(more));
  }

  /**
   * The main server: its directory server_directory (whether it still
   * exists, and its files, which are the downloads staged there), and the
   * storage nodes of the configuration, in configuration order. Each node
   * is a separate object: a request to node i changes node i only.
   */
  class Coordinator {
    var directory: Directory
    var hasDirectory: bool
    const nodes: seq<StorageNode>

    ghost predicate Valid() {
      forall i, j :: 0 <= i < j < |nodes| ==> nodes[i] != nodes[j]
    }

    /** The nodes' directories, in node order. */
    function NodeFiles(): (r: seq<Directory>)
      reads nodes
      ensures |r| == |nodes| && forall k :: 0 <= k < |nodes| ==> r[k] == nodes[k].files
    {
      seq(|nodes|, k requires 0 <= k < |nodes| reads nodes => nodes[k].files)
    }

    function Snapshot(): State
      reads this, nodes
    {
      State(directory, hasDirectory, NodeFiles())
    }

    /** main: server_directory is created when it is missing, and kept with its files otherwise. */
    constructor(nodes: seq<StorageNode>, existing: Directory)
      requires forall i, j :: 0 <= i < j < |nodes| ==> nodes[i] != nodes[j]
      ensures Valid() && this.nodes == nodes
      ensures directory == existing && hasDirectory
    {
      this.nodes := nodes;
      directory := existing;
      hasDirectory := true;
    }

    /** A socket to node i: the node serves the request as one connection, and no other node changes. */
    method Send(i: nat, request: Bytes) returns (reply: Bytes)
      requires Valid() && i < |nodes|
      modifies nodes[i]
      ensures NodeFiles() == old(NodeFiles())[i := SubServerStep(old(NodeFiles())[i], request).files]
      ensures reply == SubServerStep(old(NodeFiles())[i], request).reply
      ensures directory == old(directory) && hasDirectory == old(hasDirectory)
    {
      ghost var before := NodeFiles();
      var failed;
      reply, failed := nodes[i].Handle(request);
      assert NodeFiles() == before[i := nodes[i].files];
    }

    /** The RETRIEVE connection of assembleFile to node i, which leaves every node as it was. */
    method Fetch(ghost files: seq<Directory>, i: nat, name: string) returns (reply: Bytes)
      requires Valid() && i < |nodes| && Writable(name) && NodeFiles() == files
      modifies nodes[i]
      ensures NodeFiles() == files && directory == old(directory) && hasDirectory == old(hasDirectory)
      ensures reply == SubServerStep(files[i], RetrieveRequest(name)).reply
    {
      reply := Send(i, RetrieveRequest(name));
      RetrieveKeepsFiles(files[i], name);
      UpdateSame(files, i);
    }

    /** Writes content to server_directory under name; the nodes are not touched. */
    method PutEntry(ghost files: seq<Directory>, name: string, content: Bytes)
      requires NodeFiles() == files
      modifies this
      ensures directory == old(directory)[name := content] && hasDirectory == old(hasDirectory)
      ensures NodeFiles() == files
    {
      directory := directory[name := content];
    }

    /** Deletes name from server_directory; the nodes are not touched. */
    method RemoveEntry(ghost files: seq<Directory>, name: string)
      requires NodeFiles() == files
      modifies this
      ensures directory == old(directory) - {name} && hasDirectory == old(hasDirectory)
      ensures NodeFiles() == files
    {
      directory := directory - {name};
    }

    /** Deletes server_directory itself; the nodes are not touched. */
    method RemoveDirectory(ghost files: seq<Directory>)
      requires NodeFiles() == files
      modifies this
      ensures directory == old(directory) && !hasDirectory
      ensures NodeFiles() == files
    {
      hasDirectory := false;
    }

    /**
     * One round of distributeFile's loop: bytesToSend bytes of the client's
     * stream go to node i under fragment i's name. `go` is false when the
     * round ends the upload in an exception (a name writeUTF refuses, or a
     * client stream that ends early); `rest` is the client's stream after
     * the fragment.
     */
    method SendFragment(ghost plan: seq<int>, ghost goal: Distribution, fileName: string, i: nat, bytesToSend: int, stream: Bytes)
      returns (go: bool, rest: Bytes)
      requires Valid() && i < |nodes| && |plan| == |nodes| && bytesToSend == plan[i]
      requires DistributeFrom(NodeFiles(), fileName, plan, stream, i) == goal
      modifies nodes
      ensures go ==> DistributeFrom(NodeFiles(), fileName, plan, rest, i + 1) == goal
      ensures !go ==> NodeFiles() == goal.nodes && !goal.complete
    {
      var name := FragmentName(fileName, i);
      if !Writable(name) {
        return false, stream;
      }
      var c, _ := ChunkedIO.CopyExactly(stream, bytesToSend, ServerConfig.CHUNK_SIZE);
      ghost var before := NodeFiles();
      DistributeRound(before, fileName, plan, stream, i, c);
      var _ := Send(i, StoreHeader(name, bytesToSend) + c.data);
      return c.complete, c.rest;
    }

    /**
     * distributeFile: fragment i of the client's stream goes to node i in a
     * STORE request of its own, the last fragment taking the remainder of
     * the division. No node at all is a division by zero; a fragment name
     * writeUTF refuses, or a client stream that ends early, stops the loop
     * with an exception (false).
     */
    method DistributeFile(fileName: string, fileSize: int, input: Bytes) returns (complete: bool)
      requires Valid()
      modifies nodes
      ensures |nodes| == 0 ==> !complete && NodeFiles() == old(NodeFiles())
      ensures |nodes| > 0 ==>
        var d := DistributeFrom(old(NodeFiles()), fileName, PlanSizes(fileSize, |nodes|), input, 0);
        NodeFiles() == d.nodes && complete == d.complete
    {
      var n := |nodes|;
      if n == 0 {
        return false;
      }
      ghost var plan := PlanSizes(fileSize, n);
      ghost var goal := DistributeFrom(NodeFiles(), fileName, plan, input, 0);
      var stream := input;
      var i := 0;
      while i < n
        invariant 0 <= i <= n
        invariant DistributeFrom(NodeFiles(), fileName, plan, stream, i) == goal
      {
        var bytesToSend := FragmentLength(fileSize, n, i);
        var go;
        go, stream := SendFragment(plan, goal, fileName, i, bytesToSend, stream);
        if !go {
          return false;
        }
        i := i + 1;
      }
      return true;
    }

    /**
     * One round of assembleFile's loop: fragment i is asked of node i and
     * what the node sends is appended to the staged file. `outcome` is how
     * the assembly ends when this round ends it; None when the loop goes on
     * with the longer staged content.
     */
    method AppendFragment(ghost files: seq<Directory>, ghost goal: Assembly, ghost base: Directory, fileName: string, i: nat, staged: Bytes)
      returns (outcome: Option<Assembly>, more: Bytes)
      requires Valid() && i < |nodes| && NodeFiles() == files
      requires AssembleFrom(files, fileName, i, staged) == goal && directory == base[fileName := staged]
      modifies this, nodes
      ensures NodeFiles() == files && hasDirectory == old(hasDirectory)
      ensures outcome.None? ==> AssembleFrom(files, fileName, i + 1, more) == goal
      ensures outcome.Some? ==> outcome.value == goal && more == goal.staged
      ensures directory == base[fileName := more]
    {
      var name := FragmentName(fileName, i);
      if !Writable(name) {
        UnwritableFragment(files, fileName, i, staged);
        return Some(Failed(staged)), staged;
      }
      var reply := Fetch(files, i, name);
      outcome, more := ReceiveFragment(files, goal, fileName, i, staged, reply);
      MapOverwrite(base, fileName, staged, more);
      PutEntry(files, fileName, more);
    }

    /**
     * assembleFile, reading each node's status before the fragment length:
     * the file is staged under its own name in server_directory (opened, so
     * emptied, first), and each fragment is fetched with RETRIEVE and
     * appended. None is the staging file failing to open, before any node
     * is asked. The nodes' files are never changed.
     */
    method AssembleFile(fileName: string) returns (result: Option<Assembly>)
      requires Valid()
      modifies this, nodes
      ensures NodeFiles() == old(NodeFiles()) && hasDirectory == old(hasDirectory)
      ensures result.None? <==> !hasDirectory || !PlainFileName(fileName)
      ensures result.None? ==> directory == old(directory)
      ensures result.Some? ==>
        && result.value == AssembleFrom(NodeFiles(), fileName, 0, [])
        && directory == old(directory)[fileName := result.value.staged]
    {
      if !hasDirectory || !PlainFileName(fileName) {
        return None;
      }
      ghost var files := NodeFiles();
      ghost var goal := AssembleFrom(files, fileName, 0, []);
      ghost var base := directory;
      var staged := [];
      PutEntry(files, fileName, staged);
      var i := 0;
      while i < |nodes|
        invariant 0 <= i <= |nodes|
        invariant |files| == |nodes| && NodeFiles() == files && hasDirectory == old(hasDirectory)
        invariant directory == base[fileName := staged]
        invariant AssembleFrom(files, fileName, i, staged) == goal
      {
        var outcome;
        outcome, staged := AppendFragment(files, goal, base, fileName, i, staged);
        if outcome.Some? {
          return outcome;
        }
        i := i + 1;
      }
      return Some(Assembled(staged));
    }

    /** listFiles: `listing` is the order in which the file system enumerates server_directory. */
    method ListFiles(listing: seq<string>) returns (reply: Bytes)
      requires WireNames(directory) && Enumerates(listing, directory)
      ensures reply == ListReply(if hasDirectory then listing else [])
    {
      forall k | 0 <= k < |listing| ensures IsWireName(listing[k]) {
        assert listing[k] in directory;
      }
      if hasDirectory && |listing| > 0 {
        var names := WriteNames(listing);
        reply := WriteUtf(Ok()) + names;
      } else {
        reply := WriteUtf(NoFiles());
      }
    }

    /**
     * handleClient's ENVOYER case: the name and the declared size are read,
     * the rest of the client's stream is distributed, and "OK" is written
     * once distributeFile returns.
     */
    method Upload(args: Bytes) returns (reply: Bytes)
      requires Valid()
      modifies nodes
      ensures Step(Snapshot(), reply) == EnvoyerStep(old(Snapshot()), args)
    {
      var name := ReadUtf(args);
      if name.None? {
        return [];
      }
      var size := ReadLong(name.value.1);
      if size.None? {
        return [];
      }
      var complete := DistributeFile(name.value.0, size.value.0, size.value.1);
      reply := if complete then WriteUtf(Ok()) else [];
    }

    /**
     * handleClient's RECEVOIR case: the assembled file is sent with
     * sendFileInChunks and then deleted; an assembly that a node answered
     * with something other than "OK" is reported as "Fichier introuvable".
     */
    method Download(args: Bytes) returns (reply: Bytes)
      requires Valid()
      modifies this, nodes
      ensures Step(Snapshot(), reply) == RecevoirStep(old(Snapshot()), args)
    {
      ghost var st := Snapshot();
      var name := ReadUtf(args);
      if name.None? {
        return [];
      }
      var fileName := name.value.0;
      var result := AssembleFile(fileName);
      if result.None? {
        RecevoirRefusedStep(st, args, fileName, name.value.1);
        return [];
      }
      reply := Answer(st, args, fileName, name.value.1, result.value);
    }

    /** The rest of RECEVOIR once the file is staged: it is sent and deleted, reported missing, or the request ends. */
    method Answer(ghost st: State, ghost args: Bytes, fileName: string, ghost rest: Bytes, a: Assembly) returns (reply: Bytes)
      requires ReadUtf(args) == Some((fileName, rest)) && st.hasDirectory && PlainFileName(fileName)
      requires AssembleFrom(st.nodes, fileName, 0, []) == a
      requires directory == st.directory[fileName := a.staged] && hasDirectory && NodeFiles() == st.nodes
      modifies this
      ensures Step(Snapshot(), reply) == RecevoirStep(st, args)
    {
      RecevoirStepOf(st, args, fileName, rest, a);
      match a
      case Assembled(_) =>
        reply := SendFile(directory[fileName]);
        MapRemoveWritten(st.directory, fileName, a.staged);
        RemoveEntry(st.nodes, fileName);
      case Missing(_) =>
        reply := WriteUtf(NotFound());
      case Failed(_) =>
        reply := [];
    }

    /**
     * deleteFile: the named entry of server_directory is deleted if it
     * exists. The empty name denotes server_directory itself, which is
     * deleted only when it is empty.
     */
    method DeleteFile(args: Bytes) returns (reply: Bytes)
      modifies this
      ensures Step(Snapshot(), reply) == SupprimerStep(old(Snapshot()), args)
    {
      ghost var files := NodeFiles();
      var name := ReadUtf(args);
      if name.None? {
        return [];
      }
      var fileName := name.value.0;
      if fileName == "" && hasDirectory && directory == map[] {
        RemoveDirectory(files);
        reply := WriteUtf(Deleted());
      } else if hasDirectory && fileName in directory {
        RemoveEntry(files, fileName);
        reply := WriteUtf(Deleted());
      } else {
        reply := WriteUtf(DeleteFailed());
      }
    }

    /**
     * handleClient: one command per connection, matched after toUpperCase;
     * `listing` is the order in which the file system enumerates
     * server_directory.
     */
    method HandleClient(request: Bytes, listing: seq<string>) returns (reply: Bytes)
      requires Valid() && WireNames(directory) && Enumerates(listing, directory)
      modifies this, nodes
      ensures Step(Snapshot(), reply) == ClientStep(old(Snapshot()), request, listing)
      ensures WireNames(directory)
    {
      ghost var before := Snapshot();
      var parsed := ReadUtf(request);
      if parsed.None? {
        reply := [];
      } else {
        var command := ToUpper(parsed.value.0);
        var args := parsed.value.1;
        if command == Envoyer() {
          reply := Upload(args);
        } else if command == Recevoir() {
          reply := Download(args);
        } else if command == Lister() {
          reply := ListFiles(listing);
        } else if command == Supprimer() {
          reply := DeleteFile(args);
        } else {
          reply := WriteUtf(UnknownCommand());
        }
      }
      ClientStepKeepsWireNames(before, request, listing);
    }
  }
}
